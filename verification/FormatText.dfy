/** The text that the printf engine (sprintf.c) produces, as functions: integer digits, the
    fields of the conversions, and whole formats. The conversions are those of section
    7.19.6.1 of ISO/IEC 9899:1999 as the code treats them. */
module FormatText {
  import opened Layouts

  // ---------------------------------------------------------------- digits

  predicate IsBase(base: nat) { base == 8 || base == 10 || base == 16 }

  lemma DivSmaller(v: nat, base: nat)
    requires base > 1 && v > 0
    ensures v / base < v && v == v / base * base + v % base && v % base < base
  {
    MulGap(v, v / base, base);
    Twice(v, base);
  }

  lemma Twice(v: nat, base: nat)
    requires base > 1
    ensures v * base >= v + v
  {
    MulMonotone(2, base, v);
  }

  /** Digits of a positive number, most significant first. */
  function Dig(v: nat, base: nat): seq<nat>
    requires base > 1
    decreases v
  {
    if v == 0 then [] else
    DivSmaller(v, base);
    Dig(v / base, base) + [v % base]
  }

  function Digits(v: nat, base: nat): seq<nat>
    requires base > 1
  {
    if v == 0 then [0] else Dig(v, base)
  }

  function Value(ds: seq<nat>, base: nat): nat {
    if ds == [] then 0 else Value(ds[..|ds| - 1], base) * base + ds[|ds| - 1]
  }

  function Power(base: nat, k: nat): nat {
    if k == 0 then 1 else base * Power(base, k - 1)
  }

  predicate AllBelow(ds: seq<nat>, base: nat) {
    forall i :: 0 <= i < |ds| ==> ds[i] < base
  }

  /** The digits have the value of the number and no leading zero. */
  lemma {:induction false} DigMeaning(v: nat, base: nat)
    requires base > 1
    ensures Value(Dig(v, base), base) == v && AllBelow(Dig(v, base), base)
    ensures v > 0 ==> Dig(v, base) != [] && Dig(v, base)[0] > 0
    ensures v == 0 ==> Dig(v, base) == []
    decreases v
  {
    if v > 0 {
      DivSmaller(v, base);
      DigMeaning(v / base, base);
      DigStep(Dig(v / base, base), v, v / base, v % base, base);
    }
  }

  lemma DigStep(ds: seq<nat>, v: nat, q: nat, r: nat, base: nat)
    requires v == q * base + r && r < base && v > 0
    requires Value(ds, base) == q && AllBelow(ds, base) && (q > 0 ==> ds != [] && ds[0] > 0) && (q == 0 ==> ds == [])
    ensures Value(ds + [r], base) == v && AllBelow(ds + [r], base) && (ds + [r])[0] > 0
  {
    assert (ds + [r])[..|ds|] == ds;
  }

  lemma DigitsMeaning(v: nat, base: nat)
    requires base > 1
    ensures Value(Digits(v, base), base) == v && AllBelow(Digits(v, base), base)
    ensures Digits(v, base) != [] && (v > 0 ==> Digits(v, base)[0] > 0) && (v == 0 ==> Digits(v, base) == [0])
  {
    DigMeaning(v, base);
    if v == 0 { assert [0][..0] == []; }
  }

  /** A number has at most `k` digits exactly when it is below the base to the `k`. */
  lemma {:induction false} DigLength(v: nat, base: nat, k: nat)
    requires base > 1
    ensures |Dig(v, base)| <= k <==> v < Power(base, k)
    decreases k
  {
    if k == 0 {
    } else if v == 0 {
      PowerPositive(base, k);
    } else {
      DigLength(v / base, base, k - 1);
      DivBelow(v, base, Power(base, k - 1));
    }
  }

  lemma {:induction false} PowerPositive(base: nat, k: nat)
    requires base > 0
    ensures Power(base, k) > 0
  {
    if k > 0 {
      PowerPositive(base, k - 1);
      MulGap(0, Power(base, k - 1), base);
    }
  }

  lemma DivBelow(v: nat, base: nat, m: nat)
    requires base > 0
    ensures v / base < m <==> v < base * m
  {
    var q, r := v / base, v % base;
    assert v == q * base + r;
    MulGap(q, m, base);
    MulGap(m, q, base);
  }

  /** Room for digits in the conversion buffer beside the terminating NUL. */
  const ITOA_DIGITS: nat := 21

  /** The conversion buffer holds every 64-bit number in bases 10 and 16, and in base 8
      exactly the numbers below 8 to the 21. */
  lemma DigitsFitIff(v: nat, base: nat)
    requires IsBase(base) && v < WORD64
    ensures |Digits(v, base)| <= ITOA_DIGITS <==> base != 8 || v < 0x8000_0000_0000_0000
  {
    DigLength(v, base, ITOA_DIGITS);
    Powers();
  }

  lemma Powers()
    ensures Power(8, 21) == 0x8000_0000_0000_0000
    ensures Power(10, 21) > WORD64 && Power(16, 21) > WORD64
  {
    PowerSplit(8, 7, 14);
    PowerSplit(8, 7, 7);
    assert Power(8, 7) == 2097152;
    PowerSplit(10, 10, 11);
    PowerSplit(10, 5, 5);
    PowerSplit(10, 5, 6);
    assert Power(10, 5) == 100000 && Power(10, 6) == 1000000;
    PowerSplit(16, 7, 14);
    PowerSplit(16, 7, 7);
    assert Power(16, 7) == 268435456;
  }

  lemma {:induction false} PowerSplit(base: nat, a: nat, b: nat)
    ensures Power(base, a + b) == Power(base, a) * Power(base, b)
  {
    if a > 0 {
      PowerSplit(base, a - 1, b);
      Associate(base, Power(base, a - 1), Power(base, b));
    }
  }

  lemma Associate(a: nat, b: nat, c: nat)
    ensures a * (b * c) == a * b * c
  {
  }

  /** The largest 64-bit number shows the octal case fails: it has 22 digits. */
  lemma OctalOverflow()
    ensures |Digits(WORD64 - 1, 8)| > ITOA_DIGITS
  {
    DigitsFitIff(WORD64 - 1, 8);
  }

  // ---------------------------------------------------------------- fields

  datatype Flags =
    Flags(left: bool, plus: bool, space: bool, zero: bool, hash: bool, upper: bool, neg: bool, prec: bool)

  const NO_FLAGS := Flags(false, false, false, false, false, false, false, false)

  function DigitChar(d: nat, upper: bool): char
    requires d < 16
  {
    if d < 10 then '0' + d as char else if upper then 'A' + (d - 10) as char else 'a' + (d - 10) as char
  }

  function Chars(ds: seq<nat>, upper: bool): (s: string)
    ensures |s| == |ds|
  {
    if ds == [] then []
    else Chars(ds[..|ds| - 1], upper) + [if ds[|ds| - 1] < 16 then DigitChar(ds[|ds| - 1], upper) else '?']
  }

  function DigitText(v: nat, base: nat, upper: bool): string
    requires base > 1
  {
    Chars(Digits(v, base), upper)
  }

  function Repeat(c: char, n: nat): (s: string)
    ensures |s| == n && forall i :: 0 <= i < n ==> s[i] == c
  {
    if n == 0 then [] else Repeat(c, n - 1) + [c]
  }

  /** Sign or alternate-form prefix of an integer field. */
  function Prefix(v: nat, base: nat, f: Flags): string
    requires base > 1
  {
    if base == 10 then
      if f.neg then "-" else if f.plus then "+" else if f.space then " " else ""
    else if f.hash then
      if base == 16 && v > 0 then (if f.upper then "0X" else "0x")
      else if base == 8 && DigitText(v, base, f.upper)[..1] != "0" then "0"
      else ""
    else ""
  }

  function Max(a: int, b: int): int { if a < b then b else a }

  /** Zeros that the precision asks for. */
  function PrecisionZeros(v: nat, base: nat, prec: int): nat
    requires base > 1
  {
    Max(prec - |Digits(v, base)|, 0)
  }

  function Payload(v: nat, base: nat, f: Flags, prec: int): nat
    requires base > 1
  {
    |Prefix(v, base, f)| + PrecisionZeros(v, base, prec) + |Digits(v, base)|
  }

  predicate ZeroPadded(f: Flags) { f.zero && !f.prec && !f.left }

  function Pad(v: nat, base: nat, f: Flags, width: nat, prec: int): nat
    requires base > 1
  {
    Max(width - Payload(v, base, f, prec), 0)
  }

  /** An integer field: padding, prefix, zeros, digits, padding. */
  function IntText(v: nat, base: nat, f: Flags, width: nat, prec: int): string
    requires base > 1
  {
    var pad := Pad(v, base, f, width, prec);
    Repeat(' ', if f.left || ZeroPadded(f) then 0 else pad)
    + Prefix(v, base, f)
    + Repeat('0', PrecisionZeros(v, base, prec) + if ZeroPadded(f) then pad else 0)
    + DigitText(v, base, f.upper)
    + Repeat(' ', if f.left then pad else 0)
  }

  /** An integer field is as wide as its width or its payload, whichever is more. */
  lemma IntTextLength(v: nat, base: nat, f: Flags, width: nat, prec: int)
    requires base > 1
    ensures |IntText(v, base, f, width, prec)| == Max(width, Payload(v, base, f, prec))
    ensures Payload(v, base, f, prec) == |Prefix(v, base, f)| + Max(prec, |Digits(v, base)|)
  {
    hide Digits, Prefix;
  }

  // ---------------------------------------------------------------- parsing a field back

  function DigitOf(c: char): nat {
    if '0' <= c <= '9' then (c - '0') as nat
    else if 'a' <= c <= 'f' then (c - 'a') as nat + 10
    else if 'A' <= c <= 'F' then (c - 'A') as nat + 10
    else 16
  }

  /** The value of the digits a string starts with, after the digits of value `acc`. */
  function ReadDigits(s: string, base: nat, acc: nat): nat {
    if s == "" || DigitOf(s[0]) >= base then acc else ReadDigits(s[1..], base, acc * base + DigitOf(s[0]))
  }

  function SkipSpaces(s: string): string {
    if s != "" && s[0] == ' ' then SkipSpaces(s[1..]) else s
  }

  predicate HexPrefix(s: string) { |s| >= 2 && s[0] == '0' && (s[1] == 'x' || s[1] == 'X') }

  /** Sign and value of a number in a text field: spaces, a sign, a hexadecimal prefix and
      the digits. */
  function ReadNumber(s: string, base: nat): (bool, nat) {
    var t := SkipSpaces(s);
    var neg := t != "" && t[0] == '-';
    var u := if t != "" && (t[0] == '-' || t[0] == '+') then t[1..] else t;
    var w := if base == 16 && HexPrefix(u) then u[2..] else u;
    (neg, ReadDigits(w, base, 0))
  }

  lemma {:induction false} SkipRepeat(n: nat, s: string)
    ensures SkipSpaces(Repeat(' ', n) + s) == SkipSpaces(s)
    decreases n
  {
    if n == 0 {
      assert Repeat(' ', 0) + s == s;
    } else {
      var t := Repeat(' ', n) + s;
      assert t[0] == ' ' && t[1..] == Repeat(' ', n)[1..] + s;
      assert Repeat(' ', n)[1..] == Repeat(' ', n - 1);
      SkipRepeat(n - 1, s);
    }
  }

  lemma {:induction false} ReadZeros(n: nat, s: string, base: nat)
    requires base > 1
    ensures ReadDigits(Repeat('0', n) + s, base, 0) == ReadDigits(s, base, 0)
    decreases n
  {
    if n == 0 {
      assert Repeat('0', 0) + s == s;
    } else {
      var t := Repeat('0', n) + s;
      assert t[0] == '0' && t[1..] == Repeat('0', n)[1..] + s;
      assert Repeat('0', n)[1..] == Repeat('0', n - 1);
      ReadZeros(n - 1, s, base);
    }
  }

  lemma DigitCharRoundTrip(d: nat, upper: bool)
    requires d < 16
    ensures DigitOf(DigitChar(d, upper)) == d && DigitChar(d, upper) != ' ' && DigitChar(d, upper) != '-' &&
      DigitChar(d, upper) != '+'
    ensures DigitChar(d, upper) != 'x' && DigitChar(d, upper) != 'X'
  {
  }

  lemma {:induction false} CharsAt(ds: seq<nat>, upper: bool, i: nat)
    requires AllBelow(ds, 16) && i < |ds|
    ensures Chars(ds, upper)[i] == DigitChar(ds[i], upper)
    decreases |ds|
  {
    if i < |ds| - 1 { CharsAt(ds[..|ds| - 1], upper, i); }
  }

  /** Value of `ds` read after digits of value `acc`. */
  function Continue(acc: nat, ds: seq<nat>, base: nat): nat
    decreases ds
  {
    if ds == [] then acc else Continue(acc * base + ds[0], ds[1..], base)
  }

  lemma {:induction false} ContinueLast(acc: nat, ds: seq<nat>, d: nat, base: nat)
    ensures Continue(acc, ds + [d], base) == Continue(acc, ds, base) * base + d
    decreases ds
  {
    if ds == [] {
      assert ds + [d] == [d];
    } else {
      assert (ds + [d])[1..] == ds[1..] + [d];
      ContinueLast(acc * base + ds[0], ds[1..], d, base);
    }
  }

  lemma {:induction false} ContinueIsValue(ds: seq<nat>, base: nat)
    ensures Continue(0, ds, base) == Value(ds, base)
    decreases |ds|
  {
    if ds != [] {
      ContinueIsValue(ds[..|ds| - 1], base);
      ContinueLast(0, ds[..|ds| - 1], ds[|ds| - 1], base);
      assert ds[..|ds| - 1] + [ds[|ds| - 1]] == ds;
    }
  }

  /** Digits followed by something that is no digit are read to their value. */
  lemma {:induction false} ReadChars(ds: seq<nat>, upper: bool, tail: string, base: nat, acc: nat)
    requires 1 < base <= 16 && AllBelow(ds, base) && (tail == "" || DigitOf(tail[0]) >= base)
    ensures ReadDigits(Chars(ds, upper) + tail, base, acc) == Continue(acc, ds, base)
    decreases |ds|
  {
    if ds == [] {
      assert Chars(ds, upper) + tail == tail;
    } else {
      var s := Chars(ds, upper) + tail;
      CharsAt(ds, upper, 0);
      DigitCharRoundTrip(ds[0], upper);
      CharsTail(ds, upper);
      assert s[1..] == Chars(ds[1..], upper) + tail;
      ReadChars(ds[1..], upper, tail, base, acc * base + ds[0]);
    }
  }

  lemma CharsTail(ds: seq<nat>, upper: bool)
    requires AllBelow(ds, 16) && ds != []
    ensures Chars(ds, upper)[1..] == Chars(ds[1..], upper)
  {
    forall i | 0 <= i < |ds| - 1
      ensures Chars(ds, upper)[1..][i] == Chars(ds[1..], upper)[i]
    {
      CharsAt(ds, upper, i + 1);
      CharsAt(ds[1..], upper, i);
    }
  }

  /** An integer field, however it is padded, reads back as the number it was made of. */
  lemma IntTextReadsBack(v: nat, base: nat, f: Flags, width: nat, prec: int)
    requires IsBase(base)
    ensures ReadNumber(IntText(v, base, f, width, prec), base) == (base == 10 && f.neg, v)
  {
    hide Digits, Prefix, Pad, PrecisionZeros, ReadNumber, ReadDigits, SkipSpaces, Repeat, DigitText;
    var pad := Pad(v, base, f, width, prec);
    var zeros := PrecisionZeros(v, base, prec) + if ZeroPadded(f) then pad else 0;
    var tail := Repeat(' ', if f.left then pad else 0);
    var lead := if f.left || ZeroPadded(f) then 0 else pad;
    var number := Repeat('0', zeros) + DigitText(v, base, f.upper) + tail;
    Regrouped(Repeat(' ', lead), Prefix(v, base, f), Repeat('0', zeros), DigitText(v, base, f.upper), tail);
    NumberReads(v, base, f.upper, zeros, tail);
    NumberStarts(v, base, f.upper, zeros, tail);
    PrefixReads(Prefix(v, base, f), base, f, v, lead, number);
  }

  lemma Regrouped(a: string, b: string, c: string, d: string, e: string)
    ensures a + b + c + d + e == a + (b + (c + d + e))
  {
  }

  /** Zeros and digits read to the value. */
  lemma NumberReads(v: nat, base: nat, upper: bool, zeros: nat, tail: string)
    requires IsBase(base) && (tail == "" || tail[0] == ' ')
    ensures ReadDigits(Repeat('0', zeros) + DigitText(v, base, upper) + tail, base, 0) == v
  {
    hide Digits, Repeat, ReadDigits;
    var ds := Digits(v, base);
    var t := DigitText(v, base, upper) + tail;
    DigitsMeaning(v, base);
    assert Repeat('0', zeros) + DigitText(v, base, upper) + tail == Repeat('0', zeros) + t;
    ReadZeros(zeros, t, base);
    ReadChars(ds, upper, tail, base, 0);
    ContinueIsValue(ds, base);
  }

  /** They start with a digit, which no x follows. */
  lemma NumberStarts(v: nat, base: nat, upper: bool, zeros: nat, tail: string)
    requires IsBase(base) && (tail == "" || tail[0] == ' ')
    ensures var s := Repeat('0', zeros) + DigitText(v, base, upper) + tail;
      s != "" && DigitOf(s[0]) < 16 && s[0] != ' ' && s[0] != '-' && s[0] != '+' && !HexPrefix(s)
  {
    hide Digits, Repeat, Chars, DigitOf, DigitChar;
    var ds := Digits(v, base);
    DigitsMeaning(v, base);
    CharsAt(ds, upper, 0);
    DigitCharRoundTrip(ds[0], upper);
    DigitCharRoundTrip(0, upper);
    ZeroDigit(upper);
    if |ds| > 1 {
      CharsAt(ds, upper, 1);
      DigitCharRoundTrip(ds[1], upper);
    }
  }

  lemma ZeroDigit(upper: bool)
    ensures DigitChar(0, upper) == '0'
  {
  }

  lemma PrefixReads(prefix: string, base: nat, f: Flags, v: nat, lead: nat, number: string)
    requires IsBase(base) && prefix == Prefix(v, base, f)
    requires ReadDigits(number, base, 0) == v && number != "" && number[0] != ' ' && number[0] != '-' &&
      number[0] != '+'
    requires DigitOf(number[0]) < 16 && !HexPrefix(number)
    ensures ReadNumber(Repeat(' ', lead) + (prefix + number), base) == (base == 10 && f.neg, v)
  {
    hide Digits, ReadDigits, Repeat;
    SkipRepeat(lead, prefix + number);
    if prefix == "" {
      assert prefix + number == number;
    } else if prefix == " " {
      assert (prefix + number)[1..] == number;
    } else if prefix == "-" || prefix == "+" {
      assert (prefix + number)[1..] == number;
    } else if prefix == "0" {
      ReadZeros(1, number, base);
      assert Repeat('0', 1) == "0";
    } else {
      assert (prefix + number)[2..] == number;
    }
  }

  // ---------------------------------------------------------------- string and character fields

  /** The characters before the terminating NUL. */
  function CText(s: string): string {
    if s == "" || s[0] == '\0' then "" else [s[0]] + CText(s[1..])
  }

  /** Characters of a string field: all, or as many as the precision allows. */
  function StrLength(t: string, f: Flags, prec: int): (n: nat)
    ensures n <= |t|
  {
    if f.prec && 0 <= prec < |t| then prec else |t|
  }

  function StrText(s: Option<string>, f: Flags, width: nat, prec: int): string {
    var t := CText(if s.None? then "(null)" else s.value);
    var n := StrLength(t, f, prec);
    var pad := Max(width - n, 0);
    Repeat(' ', if f.left then 0 else pad) + t[..n] + Repeat(' ', if f.left then pad else 0)
  }

  function CharText(c: char, f: Flags, width: nat): string {
    var pad := Max(width - 1, 0);
    Repeat(' ', if f.left then 0 else pad) + [c] + Repeat(' ', if f.left then pad else 0)
  }

  // ---------------------------------------------------------------- conversion specifications

  /** A slot of the argument list: a 64-bit word, or a pointer to a string. */
  datatype Arg = Word(w: nat) | Text(s: Option<string>)

  datatype Len = LenNone | LenHH | LenH | LenL | LenLL | LenZ | LenT

  /** The next slot read as a word or a string; what is not there reads as zero. */
  function NextWord(args: seq<Arg>): nat {
    if args != [] && args[0].Word? then args[0].w % WORD64 else 0
  }

  function NextText(args: seq<Arg>): Option<string> {
    if args != [] && args[0].Text? then args[0].s else None
  }

  function Rest(args: seq<Arg>): seq<Arg> {
    if args == [] then [] else args[1..]
  }

  /** The low bits of a word, as a number with and without sign. */
  function Low(w: nat, bits: nat): (v: nat)
    ensures v < WORD64
  {
    if bits == 8 then w % 0x100 else if bits == 16 then w % 0x1_0000
    else if bits == 32 then w % 0x1_0000_0000 else w % WORD64
  }

  function Range64(bits: nat): nat {
    if bits == 8 then 0x100 else if bits == 16 then 0x1_0000 else if bits == 32 then 0x1_0000_0000 else WORD64
  }

  function Signed(w: nat, bits: nat): (v: int)
    ensures -(WORD64 as int) < v < WORD64
  {
    if 2 * Low(w, bits) >= Range64(bits) then Low(w, bits) - Range64(bits) else Low(w, bits)
  }

  function At(fmt: string, p: nat): char {
    if p < |fmt| then fmt[p] else '\0'
  }

  function FlagsFrom(fmt: string, p: nat, f: Flags): (r: (Flags, nat))
    ensures p <= r.1 && (p <= |fmt| ==> r.1 <= |fmt|)
    decreases |fmt| - p
  {
    if At(fmt, p) == '-' then FlagsFrom(fmt, p + 1, f.(left := true))
    else if At(fmt, p) == '+' then FlagsFrom(fmt, p + 1, f.(plus := true))
    else if At(fmt, p) == ' ' then FlagsFrom(fmt, p + 1, f.(space := true))
    else if At(fmt, p) == '0' then FlagsFrom(fmt, p + 1, f.(zero := true))
    else if At(fmt, p) == '#' then FlagsFrom(fmt, p + 1, f.(hash := true))
    else (f, p)
  }

  function NumberFrom(fmt: string, p: nat, n: nat): (r: (nat, nat))
    ensures p <= r.1 && (p <= |fmt| ==> r.1 <= |fmt|)
    decreases |fmt| - p
  {
    if '0' <= At(fmt, p) <= '9' then NumberFrom(fmt, p + 1, n * 10 + (At(fmt, p) - '0') as nat) else (n, p)
  }

  datatype Spec = Spec(flags: Flags, width: nat, prec: int, len: Len, at: nat, args: seq<Arg>)

  function WithWidth(fmt: string, s: Spec): (r: Spec)
    ensures s.at <= r.at && (s.at <= |fmt| ==> r.at <= |fmt|)
  {
    if At(fmt, s.at) == '*' then
      var w := Signed(NextWord(s.args), 32);
      if w < 0 then s.(flags := s.flags.(left := true), width := -w, at := s.at + 1, args := Rest(s.args))
      else s.(width := w, at := s.at + 1, args := Rest(s.args))
    else
      var (n, p) := NumberFrom(fmt, s.at, 0);
      s.(width := n, at := p)
  }

  function WithPrec(fmt: string, s: Spec): (r: Spec)
    ensures s.at <= r.at && (s.at <= |fmt| ==> r.at <= |fmt|)
  {
    if At(fmt, s.at) != '.' then s
    else if At(fmt, s.at + 1) == '*' then
      var v := Signed(NextWord(s.args), 32);
      s.(flags := s.flags.(prec := v >= 0), prec := if v < 0 then -1 else v, at := s.at + 2, args := Rest(s.args))
    else
      var (n, p) := NumberFrom(fmt, s.at + 1, 0);
      s.(flags := s.flags.(prec := true), prec := n, at := p)
  }

  function WithLen(fmt: string, s: Spec): (r: Spec)
    ensures s.at <= r.at && (s.at <= |fmt| ==> r.at <= |fmt|)
  {
    var c, d := At(fmt, s.at), At(fmt, s.at + 1);
    if c == 'h' then (if d == 'h' then s.(len := LenHH, at := s.at + 2) else s.(len := LenH, at := s.at + 1))
    else if c == 'l' then (if d == 'l' then s.(len := LenLL, at := s.at + 2) else s.(len := LenL, at := s.at + 1))
    else if c == 'z' then s.(len := LenZ, at := s.at + 1)
    else if c == 't' then s.(len := LenT, at := s.at + 1)
    else s
  }

  /** The specification that starts behind a percent sign, up to its conversion character. */
  function SpecFrom(fmt: string, p: nat, args: seq<Arg>): (s: Spec)
    ensures p <= s.at && (p <= |fmt| ==> s.at <= |fmt|)
  {
    var (f, q) := FlagsFrom(fmt, p, NO_FLAGS);
    WithLen(fmt, WithPrec(fmt, WithWidth(fmt, Spec(f, 0, -1, LenNone, q, args))))
  }

  /** Width in bits of the integer a conversion reads. */
  function BitsOf(c: char, len: Len): nat {
    match len
    case LenLL => 64
    case LenL => 32
    case LenHH => if c == 'o' then 32 else 8
    case LenH => if c == 'o' then 32 else 16
    case LenZ => if c == 'o' then 32 else 64
    case LenT => if c == 'o' || c == 'x' || c == 'X' then 32 else 64
    case LenNone => 32
  }

  /** The text of one conversion, and the arguments left. %n writes no text. */
  function Converted(s: Spec, c: char): (string, seq<Arg>) {
    var w, rest := NextWord(s.args), Rest(s.args);
    if c == '%' then ("%", s.args)
    else if c == 'c' then (CharText((w % 256) as char, s.flags, s.width), rest)
    else if c == 's' then (StrText(NextText(s.args), s.flags, s.width, s.prec), rest)
    else if c == 'd' || c == 'i' then
      var v := Signed(w, BitsOf(c, s.len));
      (IntText(if v < 0 then -v else v, 10, s.flags.(neg := v < 0), s.width, s.prec), rest)
    else if c == 'u' then (IntText(Low(w, BitsOf(c, s.len)), 10, s.flags, s.width, s.prec), rest)
    else if c == 'o' then (IntText(Low(w, BitsOf(c, s.len)), 8, s.flags, s.width, s.prec), rest)
    else if c == 'x' || c == 'X' then
      (IntText(Low(w, BitsOf(c, s.len)), 16, s.flags.(upper := c == 'X'), s.width, s.prec), rest)
    else if c == 'p' then
      (IntText(w, 16, s.flags.(zero := true, upper := true), if s.width > 0 then s.width else 16, s.prec), rest)
    else if c == 'n' then ("", rest)
    else ("%" + [c], s.args)
  }

  /** The text of a format from position `p` on. */
  function Formatted(fmt: string, p: nat, args: seq<Arg>): string
    decreases |fmt| - p
  {
    if At(fmt, p) == '\0' then ""
    else if At(fmt, p) != '%' then [fmt[p]] + Formatted(fmt, p + 1, args)
    else
      var s := SpecFrom(fmt, p + 1, args);
      if At(fmt, s.at) == '\0' then ""
      else
        var (t, rest) := Converted(s, At(fmt, s.at));
        t + Formatted(fmt, s.at + 1, rest)
  }

  /** The conversion is none of the floating-point ones, and an octal number fits the
      conversion buffer. */
  predicate Printable(s: Spec, c: char) {
    c != 'f' && c != 'F' && (c == 'o' ==> |Digits(Low(NextWord(s.args), BitsOf(c, s.len)), 8)| <= ITOA_DIGITS)
  }

  predicate AllPrintable(fmt: string, p: nat, args: seq<Arg>)
    decreases |fmt| - p
  {
    if At(fmt, p) == '\0' then true
    else if At(fmt, p) != '%' then AllPrintable(fmt, p + 1, args)
    else
      var s := SpecFrom(fmt, p + 1, args);
      At(fmt, s.at) == '\0' ||
      (Printable(s, At(fmt, s.at)) && AllPrintable(fmt, s.at + 1, Converted(s, At(fmt, s.at)).1))
  }
}
