/** What the text of a conversion means, told by what a reader of it sees: the number it reads back
    as, the digits, the sign, the padding and where it stands (section 7.19.6.1 of ISO/IEC
    9899:1999, as the code treats it), and that the texts of FormatText mean this. */
module FormatMeaning {
  import opened Layouts
  import opened FormatText

  // ---------------------------------------------------------------- number fields

  /** The parts of a number field, from left to right. */
  datatype Parts = Parts(lead: nat, sign: string, zeros: nat, digits: string, trail: nat)

  ghost predicate Composed(t: string, q: Parts) {
    t == Repeat(' ', q.lead) + q.sign + Repeat('0', q.zeros) + q.digits + Repeat(' ', q.trail)
  }

  /** The digits of `v`, without leading zeros, with letters of one case. */
  ghost predicate DigitsOf(ds: string, v: nat, base: nat, upper: bool) {
    && ds != "" && (ds[0] == '0' ==> ds == "0") && ReadDigits(ds, base, 0) == v
    && forall i :: 0 <= i < |ds| ==>
         DigitOf(ds[i]) < base && (if upper then !('a' <= ds[i] <= 'f') else !('A' <= ds[i] <= 'F'))
  }

  /** What stands before the digits. */
  ghost function SignOf(neg: bool, v: nat, base: nat, upper: bool, f: Flags): string {
    if base == 10 && neg then "-"
    else if base == 10 && f.plus then "+"
    else if base == 10 && f.space then " "
    else if base == 16 && f.hash && v > 0 && upper then "0X"
    else if base == 16 && f.hash && v > 0 then "0x"
    else if base == 8 && f.hash && v > 0 then "0"
    else ""
  }

  /** Room that the parts leave is filled: with spaces behind the number if it stands on the left;
      with zeros if it does not, zeros are asked for and no precision is given; else with spaces
      before it. A precision is a least number of digits. */
  ghost predicate Filled(t: string, q: Parts, f: Flags, width: nat, prec: int) {
    && |t| >= width && q.zeros + |q.digits| >= prec
    && (q.lead > 0 ==> !f.left && !(f.zero && !f.prec) && |t| == width)
    && (q.trail > 0 ==> f.left && |t| == width)
    && (q.zeros > 0 && q.zeros + |q.digits| > prec ==> !f.left && f.zero && !f.prec && |t| == width)
  }

  /** The number `v`, negative if `neg`, in a field. */
  ghost predicate NumberField(t: string, neg: bool, v: nat, base: nat, upper: bool, f: Flags, width: nat, prec: int) {
    && ReadNumber(t, base) == (neg, v)
    && exists q: Parts ::
         && Composed(t, q) && q.sign == SignOf(neg, v, base, upper, f)
         && DigitsOf(q.digits, v, base, upper) && Filled(t, q, f, width, prec)
  }

  lemma DigitTextMeaning(v: nat, base: nat, upper: bool)
    requires IsBase(base)
    ensures DigitsOf(DigitText(v, base, upper), v, base, upper) && |DigitText(v, base, upper)| == |Digits(v, base)|
    ensures DigitText(v, base, upper)[..1] == "0" <==> v == 0
  {
    hide Digits, Chars, ReadDigits;
    var ds, t := Digits(v, base), DigitText(v, base, upper);
    DigitsMeaning(v, base);
    forall i | 0 <= i < |t|
      ensures DigitOf(t[i]) < base && (if upper then !('a' <= t[i] <= 'f') else !('A' <= t[i] <= 'F'))
      ensures t[i] == '0' <==> ds[i] == 0
    {
      CharsAt(ds, upper, i);
    }
    assert t + "" == t;
    ReadChars(ds, upper, "", base, 0);
    ContinueIsValue(ds, base);
    if v == 0 { assert t == [t[0]]; }
    assert t[..1] == [t[0]];
  }

  lemma IntTextMeaning(v: nat, base: nat, f: Flags, width: nat, prec: int)
    requires IsBase(base) && (base != 10 ==> !f.neg)
    ensures NumberField(IntText(v, base, f, width, prec), f.neg, v, base, f.upper, f, width, prec)
  {
    hide Digits, ReadNumber, Repeat, DigitText, DigitsOf;
    IntTextReadsBack(v, base, f, width, prec);
    DigitTextMeaning(v, base, f.upper);
    IntTextLength(v, base, f, width, prec);
    var pad := Pad(v, base, f, width, prec);
    var q := Parts(if f.left || ZeroPadded(f) then 0 else pad, Prefix(v, base, f),
                   PrecisionZeros(v, base, prec) + if ZeroPadded(f) then pad else 0,
                   DigitText(v, base, f.upper), if f.left then pad else 0);
    assert Composed(IntText(v, base, f, width, prec), q);
  }

  // ---------------------------------------------------------------- a field has one text

  function Numbers(ds: string): (ns: seq<nat>)
    ensures |ns| == |ds|
  {
    seq(|ds|, i requires 0 <= i < |ds| => DigitOf(ds[i]))
  }

  lemma {:induction false} ReadsNumbers(ds: string, base: nat, acc: nat)
    requires AllBelow(Numbers(ds), base)
    ensures ReadDigits(ds, base, acc) == Continue(acc, Numbers(ds), base)
    decreases |ds|
  {
    if ds != "" {
      assert Numbers(ds)[0] == DigitOf(ds[0]);
      assert Numbers(ds)[1..] == Numbers(ds[1..]);
      ReadsNumbers(ds[1..], base, acc * base + DigitOf(ds[0]));
    }
  }

  /** Digits without a leading zero are those of their value. */
  lemma {:induction false} DigOfValue(ns: seq<nat>, base: nat)
    requires base > 1 && AllBelow(ns, base) && ns != [] && ns[0] > 0
    ensures Value(ns, base) > 0 && Dig(Value(ns, base), base) == ns
    decreases |ns|
  {
    var init, last := ns[..|ns| - 1], ns[|ns| - 1];
    var v := Value(init, base);
    if init != [] {
      DigOfValue(init, base);
      MulGap(0, v, base);
    }
    DivModUnique(v * base + last, v, last, base);
    assert init + [last] == ns;
  }

  lemma CharOfDigit(c: char, upper: bool)
    requires DigitOf(c) < 16 && if upper then !('a' <= c <= 'f') else !('A' <= c <= 'F')
    ensures c == DigitChar(DigitOf(c), upper)
  {
  }

  lemma NumbersUnique(ds: string, v: nat, base: nat, upper: bool)
    requires IsBase(base) && DigitsOf(ds, v, base, upper)
    ensures Numbers(ds) == Digits(v, base) && AllBelow(Numbers(ds), base)
  {
    hide Dig, ReadDigits;
    var ns := Numbers(ds);
    assert AllBelow(ns, base);
    ReadsNumbers(ds, base, 0);
    ContinueIsValue(ns, base);
    if ds[0] == '0' {
      assert ns == [0] && ns[..0] == [];
    } else {
      assert ns[0] == DigitOf(ds[0]);
      DigOfValue(ns, base);
    }
  }

  lemma DigitsUnique(ds: string, v: nat, base: nat, upper: bool)
    requires IsBase(base) && DigitsOf(ds, v, base, upper)
    ensures ds == DigitText(v, base, upper)
  {
    hide Chars, Digits, ReadDigits, DigitOf, DigitChar;
    NumbersUnique(ds, v, base, upper);
    forall i | 0 <= i < |ds|
      ensures ds[i] == Chars(Numbers(ds), upper)[i]
    {
      CharsAt(Numbers(ds), upper, i);
      CharOfDigit(ds[i], upper);
    }
  }

  lemma SignIs(v: nat, base: nat, f: Flags)
    requires IsBase(base) && (base != 10 ==> !f.neg)
    ensures SignOf(f.neg, v, base, f.upper, f) == Prefix(v, base, f)
  {
    hide DigitText, DigitsOf;
    DigitTextMeaning(v, base, f.upper);
  }

  lemma FillUnique(t: string, q: Parts, v: nat, base: nat, f: Flags, width: nat, prec: int)
    requires base > 1 && Filled(t, q, f, width, prec)
    requires |q.sign| == |Prefix(v, base, f)| && |q.digits| == |Digits(v, base)|
    requires |t| == q.lead + |q.sign| + q.zeros + |q.digits| + q.trail
    ensures var pad := Pad(v, base, f, width, prec);
      && q.lead == (if f.left || ZeroPadded(f) then 0 else pad) && q.trail == (if f.left then pad else 0)
      && q.zeros == PrecisionZeros(v, base, prec) + if ZeroPadded(f) then pad else 0
  {
    hide Digits, Prefix;
  }

  lemma NumberFieldUnique(t: string, v: nat, base: nat, f: Flags, width: nat, prec: int)
    requires IsBase(base) && (base != 10 ==> !f.neg) && NumberField(t, f.neg, v, base, f.upper, f, width, prec)
    ensures t == IntText(v, base, f, width, prec)
  {
    hide ReadNumber, DigitText, DigitsOf, Digits, Repeat, Filled, Prefix, SignOf, Pad, PrecisionZeros, ZeroPadded;
    var q :|
      Composed(t, q) && q.sign == SignOf(f.neg, v, base, f.upper, f) && DigitsOf(q.digits, v, base, f.upper) &&
      Filled(t, q, f, width, prec);
    SignIs(v, base, f);
    DigitsUnique(q.digits, v, base, f.upper);
    DigitTextMeaning(v, base, f.upper);
    FillUnique(t, q, v, base, f, width, prec);
  }

  // ---------------------------------------------------------------- text fields

  /** The characters `chars` in a field: alone, or on the side asked for of as many spaces as the
      width has room for. */
  ghost predicate TextField(t: string, chars: string, left: bool, width: nat) {
    && |t| == (if width > |chars| then width else |chars|)
    && (left ==> t[..|chars|] == chars && forall i :: |chars| <= i < |t| ==> t[i] == ' ')
    && (!left ==> t[|t| - |chars|..] == chars && forall i :: 0 <= i < |t| - |chars| ==> t[i] == ' ')
  }

  /** The characters taken from a string: up to its end, its NUL or the precision. */
  ghost predicate Taken(chars: string, s: string, f: Flags, prec: int) {
    && chars <= s && (forall i :: 0 <= i < |chars| ==> chars[i] != '\0')
    && (f.prec && prec >= 0 ==> |chars| <= prec)
    && (|chars| < |s| && s[|chars|] != '\0' ==> f.prec && |chars| == prec)
  }

  lemma {:induction false} CTextMeaning(s: string)
    ensures CText(s) <= s && (forall i :: 0 <= i < |CText(s)| ==> CText(s)[i] != '\0')
    ensures |CText(s)| < |s| ==> s[|CText(s)|] == '\0'
    decreases |s|
  {
    if s != "" && s[0] != '\0' {
      CTextMeaning(s[1..]);
      var t := CText(s[1..]);
      assert CText(s) == [s[0]] + t;
      assert s == [s[0]] + s[1..];
    }
  }

  lemma PaddedMeaning(chars: string, left: bool, width: nat, pad: nat)
    requires pad == if width > |chars| then width - |chars| else 0
    ensures TextField(Repeat(' ', if left then 0 else pad) + chars + Repeat(' ', if left then pad else 0), chars, left,
                      width)
  {
    hide Repeat;
    var t := Repeat(' ', if left then 0 else pad) + chars + Repeat(' ', if left then pad else 0);
    if left {
      assert t == chars + Repeat(' ', pad);
    } else {
      assert t == Repeat(' ', pad) + chars;
    }
  }

  lemma StrTextMeaning(s: Option<string>, f: Flags, width: nat, prec: int) returns (chars: string)
    ensures Taken(chars, if s.None? then "(null)" else s.value, f, prec)
    ensures TextField(StrText(s, f, width, prec), chars, f.left, width)
  {
    hide Repeat, CText;
    var str := if s.None? then "(null)" else s.value;
    CTextMeaning(str);
    chars := CText(str)[..StrLength(CText(str), f, prec)];
    PaddedMeaning(chars, f.left, width, Max(width - |chars|, 0));
  }

  lemma TextFieldUnique(t: string, chars: string, left: bool, width: nat, pad: nat)
    requires TextField(t, chars, left, width) && pad == if width > |chars| then width - |chars| else 0
    ensures t == Repeat(' ', if left then 0 else pad) + chars + Repeat(' ', if left then pad else 0)
  {
    hide Repeat;
    if left {
      assert t == t[..|chars|] + t[|chars|..];
      assert t[|chars|..] == Repeat(' ', pad);
    } else {
      assert t == t[..|t| - |chars|] + t[|t| - |chars|..];
      assert t[..|t| - |chars|] == Repeat(' ', pad);
    }
  }

  lemma NulEnds(chars: string, s: string, i: nat)
    requires chars <= s && (forall j :: 0 <= j < |chars| ==> chars[j] != '\0') && i < |s| && s[i] == '\0'
    ensures |chars| <= i
  {
    assert forall j :: 0 <= j < |chars| ==> chars[j] == s[j];
  }

  lemma TakenUnique(chars: string, s: string, f: Flags, prec: int)
    requires Taken(chars, s, f, prec)
    ensures chars == CText(s)[..StrLength(CText(s), f, prec)]
  {
    hide CText;
    CTextMeaning(s);
    if |CText(s)| < |s| { NulEnds(chars, s, |CText(s)|); }
    if |chars| < |s| && s[|chars|] == '\0' { NulEnds(CText(s), s, |chars|); }
  }

  // ---------------------------------------------------------------- conversions

  /** Two to the number of bits that an integer conversion reads: those of C's int, and by the
      length modifier of signed char, short, long, long long, size_t and ptrdiff_t. For o the code
      knows l and ll only, and for x no t. */
  ghost function Modulus(c: char, len: Len): nat {
    match len
    case LenNone => 0x1_0000_0000
    case LenHH => if c == 'o' then 0x1_0000_0000 else 0x100
    case LenH => if c == 'o' then 0x1_0000_0000 else 0x1_0000
    case LenL => 0x1_0000_0000
    case LenLL => 0x1_0000_0000_0000_0000
    case LenZ => if c == 'o' then 0x1_0000_0000 else 0x1_0000_0000_0000_0000
    case LenT => if c == 'o' || c == 'x' || c == 'X' then 0x1_0000_0000 else 0x1_0000_0000_0000_0000
  }

  /** `v` is the number from `lo` to `lo + m - 1` that the word stands for. */
  ghost predicate StandsFor(v: int, w: nat, lo: int, m: nat) {
    m > 0 && lo <= v < lo + m && v % m == w % m
  }

  /** The argument a conversion takes; a word or string that is not there reads as zero. */
  ghost function WordArg(args: seq<Arg>): nat {
    if args != [] && args[0].Word? then args[0].w else 0
  }

  ghost function TextArg(args: seq<Arg>): string {
    if args != [] && args[0].Text? && args[0].s.Some? then args[0].s.value else "(null)"
  }

  ghost function Magnitude(v: int): nat { if v < 0 then -v else v }

  /** The text of %d and %i: the number of which the word is the two's complement. */
  ghost predicate ShowsSigned(s: Spec, c: char, t: string) {
    exists v: int ::
      && StandsFor(v, WordArg(s.args), -(Modulus(c, s.len) / 2), Modulus(c, s.len))
      && NumberField(t, v < 0, Magnitude(v), 10, false, s.flags, s.width, s.prec)
  }

  /** The text of %u, %o, %x and %X. */
  ghost predicate ShowsUnsigned(s: Spec, c: char, t: string, base: nat) {
    exists v: nat ::
      && StandsFor(v, WordArg(s.args), 0, Modulus(c, s.len))
      && NumberField(t, false, v, base, c == 'X', s.flags, s.width, s.prec)
  }

  /** The text of %p: a field of 16 characters if no width is given, filled with zeros, and big
      letters. */
  ghost predicate ShowsPointer(s: Spec, t: string) {
    exists v: nat ::
      && StandsFor(v, WordArg(s.args), 0, 0x1_0000_0000_0000_0000)
      && NumberField(t, false, v, 16, true, s.flags.(zero := true), if s.width == 0 then 16 else s.width, s.prec)
  }

  ghost predicate ShowsString(s: Spec, t: string) {
    exists chars: string :: Taken(chars, TextArg(s.args), s.flags, s.prec) && TextField(t, chars, s.flags.left, s.width)
  }

  /** The character of the low byte. */
  ghost predicate ShowsChar(s: Spec, t: string) {
    TextField(t, [(WordArg(s.args) % 256) as char], s.flags.left, s.width)
  }

  /** The text `t` is what conversion `c` shows of its argument, and `rest` are the arguments left:
      all but the first, or all for %% and for characters that are no conversion. */
  ghost predicate Shows(s: Spec, c: char, t: string, rest: seq<Arg>) {
    && (c == 'd' || c == 'i' ==> ShowsSigned(s, c, t))
    && (c == 'u' ==> ShowsUnsigned(s, c, t, 10))
    && (c == 'o' ==> ShowsUnsigned(s, c, t, 8))
    && (c == 'x' || c == 'X' ==> ShowsUnsigned(s, c, t, 16))
    && (c == 'p' ==> ShowsPointer(s, t))
    && (c == 's' ==> ShowsString(s, t))
    && (c == 'c' ==> ShowsChar(s, t))
    && (c == 'n' ==> t == "")
    && (c == '%' ==> t == "%")
    && (c !in "diuoxXpscn%fF" ==> t == ['%', c])
    && rest == if c in "diuoxXpscn" && s.args != [] then s.args[1..] else s.args
  }

  lemma LowIs(w: nat, c: char, len: Len)
    ensures Low(w, BitsOf(c, len)) == w % Modulus(c, len) && Range64(BitsOf(c, len)) == Modulus(c, len)
    ensures Modulus(c, len) in {0x100, 0x1_0000, 0x1_0000_0000, WORD64}
  {
  }

  lemma Nested(w: nat, m: nat)
    requires m in {0x100, 0x1_0000, 0x1_0000_0000, WORD64}
    ensures w % WORD64 % m == w % m
  {
    var q, r := w / WORD64, w % WORD64;
    if m == 0x100 {
      DivModUnique(w, q * 0x100_0000_0000_0000 + r / 0x100, r % 0x100, 0x100);
    } else if m == 0x1_0000 {
      DivModUnique(w, q * 0x1_0000_0000_0000 + r / 0x1_0000, r % 0x1_0000, 0x1_0000);
    } else if m == 0x1_0000_0000 {
      DivModUnique(w, q * 0x1_0000_0000 + r / 0x1_0000_0000, r % 0x1_0000_0000, 0x1_0000_0000);
    }
  }

  lemma Residues(r: nat, m: nat)
    requires m in {0x100, 0x1_0000, 0x1_0000_0000, WORD64} && r < m
    ensures r % m == r && (r - m) % m == r
  {
    if m == 0x100 {
      assert (r - 0x100) % 0x100 == r;
    } else if m == 0x1_0000 {
      assert (r - 0x1_0000) % 0x1_0000 == r;
    } else if m == 0x1_0000_0000 {
      assert (r - 0x1_0000_0000) % 0x1_0000_0000 == r;
    } else {
      assert (r - WORD64) % WORD64 == r;
    }
  }

  /** The number that is read of a word has the range and the residue of its type. */
  lemma LowMeaning(w: nat, c: char, len: Len)
    ensures StandsFor(Low(w % WORD64, BitsOf(c, len)), w, 0, Modulus(c, len))
  {
    hide Low, BitsOf, Modulus;
    LowIs(w % WORD64, c, len);
    var m := Modulus(c, len);
    Nested(w, m);
    Residues(w % m, m);
  }

  lemma SignedMeaning(w: nat, c: char, len: Len)
    ensures StandsFor(Signed(w % WORD64, BitsOf(c, len)), w, -(Modulus(c, len) / 2), Modulus(c, len))
  {
    hide Low, BitsOf, Modulus, Range64;
    LowIs(w % WORD64, c, len);
    var m := Modulus(c, len);
    Nested(w, m);
    Residues(w % m, m);
  }

  lemma SignedShows(s: Spec, c: char)
    requires !s.flags.neg && !s.flags.upper && (c == 'd' || c == 'i')
    ensures ShowsSigned(s, c, Converted(s, c).0)
  {
    hide IntText, NumberField, StandsFor, Modulus, Low, Signed, BitsOf, Repeat;
    var v := Signed(NextWord(s.args), BitsOf(c, s.len));
    SignedMeaning(WordArg(s.args), c, s.len);
    IntTextMeaning(Magnitude(v), 10, s.flags.(neg := v < 0), s.width, s.prec);
    SameField(s.flags.(neg := v < 0), s.flags, Converted(s, c).0, v < 0, Magnitude(v), 10, false, s.width, s.prec);
  }

  lemma UnsignedShows(s: Spec, c: char, base: nat)
    requires !s.flags.neg && !s.flags.upper && (c == 'u' || c == 'o' || c == 'x' || c == 'X')
    requires base == if c == 'u' then 10 else if c == 'o' then 8 else 16
    ensures ShowsUnsigned(s, c, Converted(s, c).0, base)
  {
    hide IntText, NumberField, StandsFor, Modulus, Low, BitsOf, Repeat;
    var v := Low(NextWord(s.args), BitsOf(c, s.len));
    LowMeaning(WordArg(s.args), c, s.len);
    var f := s.flags.(upper := c == 'X');
    IntTextMeaning(v, base, f, s.width, s.prec);
    SameField(f, s.flags, Converted(s, c).0, false, v, base, c == 'X', s.width, s.prec);
  }

  lemma PointerShows(s: Spec)
    requires !s.flags.neg && !s.flags.upper
    ensures ShowsPointer(s, Converted(s, 'p').0)
  {
    hide IntText, NumberField, StandsFor, Repeat;
    var v := NextWord(s.args);
    PointerWord(WordArg(s.args));
    var f, width := s.flags.(zero := true, upper := true), if s.width > 0 then s.width else 16;
    IntTextMeaning(v, 16, f, width, s.prec);
    SameField(f, s.flags.(zero := true), Converted(s, 'p').0, false, v, 16, true, width, s.prec);
  }

  lemma PointerWord(w: nat)
    ensures StandsFor(w % WORD64, w, 0, 0x1_0000_0000_0000_0000)
  {
  }

  lemma TextShows(s: Spec)
    ensures ShowsString(s, Converted(s, 's').0) && ShowsChar(s, Converted(s, 'c').0)
  {
    hide StrText, CharText, Taken, TextField;
    var chars := StrTextMeaning(NextText(s.args), s.flags, s.width, s.prec);
    CharTextMeaning((NextWord(s.args) % 256) as char, s.flags, s.width);
    Nested(WordArg(s.args), 0x100);
  }

  lemma CharTextMeaning(c: char, f: Flags, width: nat)
    ensures TextField(CharText(c, f, width), [c], f.left, width)
  {
    PaddedMeaning([c], f.left, width, Max(width - 1, 0));
  }

  /** The texts of FormatText are what the conversions show. */
  lemma ConvertedShows(s: Spec, c: char)
    requires !s.flags.neg && !s.flags.upper && c != 'f' && c != 'F'
    ensures Shows(s, c, Converted(s, c).0, Converted(s, c).1)
  {
    hide ShowsSigned, ShowsUnsigned, ShowsPointer, ShowsString, ShowsChar, IntText, StrText, CharText, Low, Signed,
         BitsOf;
    if c == 'd' || c == 'i' { SignedShows(s, c); }
    if c == 'u' { UnsignedShows(s, c, 10); }
    if c == 'o' { UnsignedShows(s, c, 8); }
    if c == 'x' || c == 'X' { UnsignedShows(s, c, 16); }
    if c == 'p' { PointerShows(s); }
    if c == 's' || c == 'c' { TextShows(s); }
  }

  lemma StandsUnique(v: int, u: int, w: nat, lo: int, m: nat)
    requires StandsFor(v, w, lo, m) && StandsFor(u, w, lo, m)
    ensures v == u
  {
    var a, b := v / m, u / m;
    assert v == a * m + v % m && u == b * m + u % m;
    if a < b { Apart(a, b, m); }
    if b < a { Apart(b, a, m); }
  }

  lemma Apart(a: int, b: int, m: nat)
    requires a < b
    ensures b * m >= a * m + m
  {
    assert b * m - a * m == (b - a) * m;
    MulMonotone(1, b - a, m);
  }

  lemma SignedUnique(s: Spec, c: char, t: string)
    requires !s.flags.neg && !s.flags.upper && (c == 'd' || c == 'i') && ShowsSigned(s, c, t)
    ensures t == Converted(s, c).0
  {
    hide IntText, NumberField, StandsFor, Modulus, Low, Signed, BitsOf, Repeat;
    var u := Signed(NextWord(s.args), BitsOf(c, s.len));
    SignedMeaning(WordArg(s.args), c, s.len);
    var v: int :|
      StandsFor(v, WordArg(s.args), -(Modulus(c, s.len) / 2), Modulus(c, s.len)) &&
      NumberField(t, v < 0, Magnitude(v), 10, false, s.flags, s.width, s.prec);
    StandsUnique(v, u, WordArg(s.args), -(Modulus(c, s.len) / 2), Modulus(c, s.len));
    var f := s.flags.(neg := v < 0);
    SameField(s.flags, f, t, v < 0, Magnitude(v), 10, false, s.width, s.prec);
    NumberFieldUnique(t, Magnitude(v), 10, f, s.width, s.prec);
  }

  lemma UnsignedUnique(s: Spec, c: char, t: string, base: nat)
    requires !s.flags.neg && !s.flags.upper && (c == 'u' || c == 'o' || c == 'x' || c == 'X')
    requires base == (if c == 'u' then 10 else if c == 'o' then 8 else 16) && ShowsUnsigned(s, c, t, base)
    ensures t == Converted(s, c).0
  {
    hide IntText, NumberField, StandsFor, Modulus, Low, BitsOf, Repeat;
    var u := Low(NextWord(s.args), BitsOf(c, s.len));
    LowMeaning(WordArg(s.args), c, s.len);
    var v: nat :|
      StandsFor(v, WordArg(s.args), 0, Modulus(c, s.len)) &&
      NumberField(t, false, v, base, c == 'X', s.flags, s.width, s.prec);
    StandsUnique(v, u, WordArg(s.args), 0, Modulus(c, s.len));
    var f := s.flags.(upper := c == 'X');
    SameField(s.flags, f, t, false, v, base, c == 'X', s.width, s.prec);
    NumberFieldUnique(t, v, base, f, s.width, s.prec);
  }

  lemma PointerUnique(s: Spec, t: string)
    requires !s.flags.neg && !s.flags.upper && ShowsPointer(s, t)
    ensures t == Converted(s, 'p').0
  {
    hide IntText, NumberField, StandsFor, Repeat;
    var u := NextWord(s.args);
    PointerWord(WordArg(s.args));
    var f, width := s.flags.(zero := true, upper := true), if s.width == 0 then 16 else s.width;
    var v: nat :|
      StandsFor(v, WordArg(s.args), 0, 0x1_0000_0000_0000_0000) &&
      NumberField(t, false, v, 16, true, s.flags.(zero := true), width, s.prec);
    StandsUnique(v, u, WordArg(s.args), 0, 0x1_0000_0000_0000_0000);
    SameField(s.flags.(zero := true), f, t, false, v, 16, true, width, s.prec);
    NumberFieldUnique(t, v, 16, f, width, s.prec);
  }

  lemma StringUnique(s: Spec, t: string)
    requires ShowsString(s, t)
    ensures t == Converted(s, 's').0
  {
    hide Taken, TextField, CText, Repeat;
    var chars: string :| Taken(chars, TextArg(s.args), s.flags, s.prec) && TextField(t, chars, s.flags.left, s.width);
    TakenUnique(chars, TextArg(s.args), s.flags, s.prec);
    TextFieldUnique(t, chars, s.flags.left, s.width, Max(s.width - |chars|, 0));
  }

  lemma CharUnique(s: Spec, t: string)
    requires ShowsChar(s, t)
    ensures t == Converted(s, 'c').0
  {
    hide TextField, Repeat;
    Nested(WordArg(s.args), 0x100);
    TextFieldUnique(t, [(WordArg(s.args) % 256) as char], s.flags.left, s.width, Max(s.width - 1, 0));
  }

  /** What a conversion shows determines its text: there is one text, and it is that of
      FormatText. */
  lemma ConvertedIff(s: Spec, c: char, t: string, rest: seq<Arg>)
    requires !s.flags.neg && !s.flags.upper && c != 'f' && c != 'F'
    ensures Shows(s, c, t, rest) <==> (t, rest) == Converted(s, c)
  {
    hide ShowsSigned, ShowsUnsigned, ShowsPointer, ShowsString, ShowsChar, IntText, StrText, CharText, Low, Signed,
         BitsOf;
    ConvertedShows(s, c);
    if Shows(s, c, t, rest) {
      if c == 'd' || c == 'i' { SignedUnique(s, c, t); }
      if c == 'u' { UnsignedUnique(s, c, t, 10); }
      if c == 'o' { UnsignedUnique(s, c, t, 8); }
      if c == 'x' || c == 'X' { UnsignedUnique(s, c, t, 16); }
      if c == 'p' { PointerUnique(s, t); }
      if c == 's' { StringUnique(s, t); }
      if c == 'c' { CharUnique(s, t); }
    }
  }

  /** A field does not depend on the flags that no specification sets. */
  lemma SameField(f: Flags, g: Flags, t: string, neg: bool, v: nat, base: nat, upper: bool, width: nat, prec: int)
    requires g == f.(neg := g.neg, upper := g.upper)
    requires NumberField(t, neg, v, base, upper, f, width, prec)
    ensures NumberField(t, neg, v, base, upper, g, width, prec)
  {
    hide ReadNumber, Composed, DigitsOf;
    var q :|
      Composed(t, q) && q.sign == SignOf(neg, v, base, upper, f) && DigitsOf(q.digits, v, base, upper) &&
      Filled(t, q, f, width, prec);
    assert Filled(t, q, g, width, prec);
  }

  // ---------------------------------------------------------------- formats

  /** A specification as it is parsed sets neither the sign nor the case of the digits. */
  lemma SpecPlain(fmt: string, p: nat, args: seq<Arg>)
    ensures !SpecFrom(fmt, p, args).flags.neg && !SpecFrom(fmt, p, args).flags.upper
  {
    hide FlagsFrom, WithWidth, WithPrec, WithLen;
    FlagsPlain(fmt, p, NO_FLAGS);
    var (f, q) := FlagsFrom(fmt, p, NO_FLAGS);
    var s := Spec(f, 0, -1, LenNone, q, args);
    WidthPlain(fmt, s);
    PrecPlain(fmt, WithWidth(fmt, s));
    LenPlain(fmt, WithPrec(fmt, WithWidth(fmt, s)));
  }

  lemma WidthPlain(fmt: string, s: Spec)
    ensures WithWidth(fmt, s).flags.neg == s.flags.neg && WithWidth(fmt, s).flags.upper == s.flags.upper
  {
    hide NumberFrom, Signed;
  }

  lemma PrecPlain(fmt: string, s: Spec)
    ensures WithPrec(fmt, s).flags.neg == s.flags.neg && WithPrec(fmt, s).flags.upper == s.flags.upper
  {
    hide NumberFrom, Signed;
  }

  lemma LenPlain(fmt: string, s: Spec)
    ensures WithLen(fmt, s).flags == s.flags
  {
  }

  lemma {:induction false} FlagsPlain(fmt: string, p: nat, f: Flags)
    ensures FlagsFrom(fmt, p, f).0.neg == f.neg && FlagsFrom(fmt, p, f).0.upper == f.upper
    decreases |fmt| - p
  {
    if At(fmt, p) == '-' {
      FlagsPlain(fmt, p + 1, f.(left := true));
    } else if At(fmt, p) == '+' {
      FlagsPlain(fmt, p + 1, f.(plus := true));
    } else if At(fmt, p) == ' ' {
      FlagsPlain(fmt, p + 1, f.(space := true));
    } else if At(fmt, p) == '0' {
      FlagsPlain(fmt, p + 1, f.(zero := true));
    } else if At(fmt, p) == '#' {
      FlagsPlain(fmt, p + 1, f.(hash := true));
    }
  }

  /** The text `t` is that of the format from `p` on: what is no conversion stands for itself, each
      conversion shows its argument, and the next one goes on with the arguments left. The end of
      the string or a NUL ends it, also within a specification. */
  ghost predicate FormatShows(fmt: string, p: nat, args: seq<Arg>, t: string)
    decreases |fmt| - p
  {
    if p >= |fmt| || fmt[p] == '\0' then t == ""
    else if fmt[p] != '%' then t != "" && t[0] == fmt[p] && FormatShows(fmt, p + 1, args, t[1..])
    else
      var s := SpecFrom(fmt, p + 1, args);
      if s.at >= |fmt| || fmt[s.at] == '\0' then t == ""
      else exists n: nat, rest: seq<Arg> ::
        n <= |t| && Shows(s, fmt[s.at], t[..n], rest) && FormatShows(fmt, s.at + 1, rest, t[n..])
  }

  /** The text of a format that goes on with a conversion. */
  lemma ConversionIff(fmt: string, p: nat, args: seq<Arg>, s: Spec, u: string, rest: seq<Arg>, t: string)
    requires p < |fmt| && fmt[p] == '%' && s == SpecFrom(fmt, p + 1, args) && At(fmt, s.at) != '\0'
    requires (u, rest) == Converted(s, fmt[s.at])
    requires forall n: nat, r: seq<Arg> :: n <= |t| ==> (Shows(s, fmt[s.at], t[..n], r) <==> t[..n] == u && r == rest)
    requires |u| <= |t| ==>
      (FormatShows(fmt, s.at + 1, rest, t[|u|..]) <==> t[|u|..] == Formatted(fmt, s.at + 1, rest))
    ensures FormatShows(fmt, p, args, t) <==> t == Formatted(fmt, p, args)
  {
    hide SpecFrom, Converted, Shows;
    var all, tail := Formatted(fmt, p, args), Formatted(fmt, s.at + 1, rest);
    assert all == u + tail;
    if t == all {
      assert t[..|u|] == u && t[|u|..] == tail;
      assert Shows(s, fmt[s.at], t[..|u|], rest);
    }
    if FormatShows(fmt, p, args, t) {
      var n: nat, r: seq<Arg> :|
        n <= |t| && Shows(s, fmt[s.at], t[..n], r) && FormatShows(fmt, s.at + 1, r, t[n..]);
      assert t == t[..n] + t[n..];
    }
  }

  /** The text of a format that goes on with another character. */
  lemma CharacterIff(fmt: string, p: nat, args: seq<Arg>, t: string)
    requires p < |fmt| && fmt[p] != '\0' && fmt[p] != '%'
    requires t != "" ==> (FormatShows(fmt, p + 1, args, t[1..]) <==> t[1..] == Formatted(fmt, p + 1, args))
    ensures FormatShows(fmt, p, args, t) <==> t == Formatted(fmt, p, args)
  {
    assert Formatted(fmt, p, args)[1..] == Formatted(fmt, p + 1, args);
    assert t != "" ==> t == [t[0]] + t[1..];
  }

  /** A format has exactly one such text, and it is that of FormatText. */
  lemma {:induction false} FormattedIff(fmt: string, p: nat, args: seq<Arg>, t: string)
    requires AllPrintable(fmt, p, args)
    ensures FormatShows(fmt, p, args, t) <==> t == Formatted(fmt, p, args)
    decreases |fmt| - p
  {
    hide SpecFrom, Converted, Shows;
    if At(fmt, p) != '\0' && At(fmt, p) != '%' {
      if t != "" { FormattedIff(fmt, p + 1, args, t[1..]); }
      CharacterIff(fmt, p, args, t);
    } else if At(fmt, p) == '%' {
      var s := SpecFrom(fmt, p + 1, args);
      if At(fmt, s.at) != '\0' {
        SpecPlain(fmt, p + 1, args);
        var (u, rest) := Converted(s, fmt[s.at]);
        if |u| <= |t| { FormattedIff(fmt, s.at + 1, rest, t[|u|..]); }
        forall n: nat, r: seq<Arg> | n <= |t|
          ensures Shows(s, fmt[s.at], t[..n], r) <==> t[..n] == u && r == rest
        {
          ConvertedIff(s, fmt[s.at], t[..n], r);
        }
        ConversionIff(fmt, p, args, s, u, rest, t);
      }
    }
  }

  /** A format without the letters f, F and o has no conversion that is not covered. */
  lemma {:induction false} CoveredWithout(fmt: string, p: nat, args: seq<Arg>)
    requires forall i :: 0 <= i < |fmt| ==> fmt[i] !in "fFo"
    ensures AllPrintable(fmt, p, args)
    decreases |fmt| - p
  {
    hide SpecFrom, Converted;
    if At(fmt, p) != '\0' && At(fmt, p) != '%' {
      CoveredWithout(fmt, p + 1, args);
    } else if At(fmt, p) == '%' {
      var s := SpecFrom(fmt, p + 1, args);
      if At(fmt, s.at) != '\0' {
        assert fmt[s.at] !in "fFo";
        CoveredWithout(fmt, s.at + 1, Converted(s, fmt[s.at]).1);
      }
    }
  }
}
