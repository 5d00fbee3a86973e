/** What the texts of the formatter mean: integers read back from them, their form in
    C99, what every conversion prints, and formats put together from directives. */
module FormatMeaning {
  import opened CStrings
  import opened Formatter
  import opened Options
  import opened Words

  // ------------------------------------------------------------ reading numbers

  /** The digit a character stands for, or -1. */
  function DigitOf(c: char): int
  {
    if '0' <= c <= '9' then c as int - '0' as int
    else if 'a' <= c <= 'f' then 10 + c as int - 'a' as int
    else if 'A' <= c <= 'F' then 10 + c as int - 'A' as int
    else -1
  }

  predicate InBase(c: char, base: Base) { 0 <= DigitOf(c) < base }

  predicate AllInBase(s: string, base: Base) { forall k :: 0 <= k < |s| ==> InBase(s[k], base) }

  function Number(s: string, base: Base): int
  {
    if s == "" then 0 else Number(s[..|s| - 1], base) * base + DigitOf(s[|s| - 1])
  }

  /** The numeral of a number: its digits in capitals or not, without leading zeros. */
  predicate IsNumeral(s: string, n: int, base: Base, up: bool)
  {
    && s != "" && AllInBase(s, base) && Number(s, base) == n
    && (|s| > 1 ==> s[0] != '0')
    && (forall k :: 0 <= k < |s| ==> if up then !('a' <= s[k] <= 'f') else !('A' <= s[k] <= 'F'))
  }

  lemma NumberSnoc(s: string, c: char, base: Base)
    ensures Number(s + [c], base) == Number(s, base) * base + DigitOf(c)
  {
    assert (s + [c])[..|s|] == s;
  }

  lemma {:induction false} NumberPositive(s: string, base: Base)
    requires AllInBase(s, base)
    ensures Number(s, base) >= 0
    ensures s != "" && s[0] != '0' ==> Number(s, base) >= 1
    decreases |s|
  {
    if s != "" {
      var head := s[..|s| - 1];
      NumberPositive(head, base);
      assert head != "" ==> head[0] == s[0];
      TimesBase(Number(head, base), base);
    }
  }

  lemma TimesBase(n: int, base: Base)
    requires n >= 0
    ensures n * base >= n && (n >= 1 ==> n * base >= base)
  {
  }

  /** A number has one numeral. */
  lemma {:induction false} NumeralUnique(s: string, t: string, n: int, base: Base, up: bool)
    requires IsNumeral(s, n, base, up) && IsNumeral(t, n, base, up)
    ensures s == t
    decreases |s|
  {
    NumeralParts(s, n, base, up);
    NumeralParts(t, n, base, up);
    SameDigit(s[|s| - 1], t[|t| - 1], up);
    if |s| > 1 {
      NumeralUnique(s[..|s| - 1], t[..|t| - 1], n / base, base, up);
    }
    assert s == s[..|s| - 1] + [s[|s| - 1]] && t == t[..|t| - 1] + [t[|t| - 1]];
  }

  lemma NumeralParts(s: string, n: int, base: Base, up: bool)
    requires IsNumeral(s, n, base, up)
    ensures DigitOf(s[|s| - 1]) == n % base
    ensures if up then !('a' <= s[|s| - 1] <= 'f') else !('A' <= s[|s| - 1] <= 'F')
    ensures |s| > 1 <==> n >= base
    ensures |s| > 1 ==> IsNumeral(s[..|s| - 1], n / base, base, up)
  {
    var head, d := s[..|s| - 1], DigitOf(s[|s| - 1]);
    assert InBase(s[|s| - 1], base);
    assert n == base * Number(head, base) + d;
    DivModUnique(n, base, Number(head, base), d);
    NumberPositive(head, base);
    if |s| > 1 {
      assert head[0] == s[0];
      TimesBase(Number(head, base), base);
    }
  }

  lemma SameDigit(c: char, d: char, up: bool)
    requires DigitOf(c) == DigitOf(d) >= 0
    requires if up then !('a' <= c <= 'f') && !('a' <= d <= 'f') else !('A' <= c <= 'F') && !('A' <= d <= 'F')
    ensures c == d
  {
  }

  // -------------------------------------------------------- the digits printed

  /** The digits of a number as they are printed, most significant first. */
  function Printed(u: nat, base: Base, up: bool): string
  {
    var rev := HexChars(RevDigits(u, base), up);
    Grouped(rev, |rev|, "")
  }

  lemma {:induction false} UngroupedChars(rev: string, n: nat)
    requires n <= |rev|
    ensures |Grouped(rev, n, "")| == n && forall i :: 0 <= i < n ==> Grouped(rev, n, "")[i] == rev[n - 1 - i]
    decreases n
  {
    if n > 0 {
      UngroupedChars(rev, n - 1);
    }
  }

  lemma PrintedStep(u: nat, base: Base, up: bool)
    ensures var d := HexChar(u % base, up);
            Printed(u, base, up) == if u / base == 0 then [d] else Printed(u / base, base, up) + [d]
  {
    hide RevDigits, Grouped, HexChar;
    OneMoreDigit(u, base);
    var rev := HexChars(RevDigits(u, base), up);
    UngroupedChars(rev, |rev|);
    if u / base != 0 {
      var rest := HexChars(RevDigits(u / base, base), up);
      UngroupedChars(rest, |rest|);
      assert forall k :: 0 <= k < |rest| ==> rest[k] == rev[k + 1];
    }
  }

  lemma HexCharReads(d: int, base: Base, up: bool)
    requires 0 <= d < base
    ensures var c := HexChar(d, up);
            && DigitOf(c) == d && InBase(c, base) && (d == 0 <==> c == '0')
            && (if up then !('a' <= c <= 'f') else !('A' <= c <= 'F'))
  {
  }

  /** What is printed is the numeral of the number. */
  lemma {:induction false} PrintedIsNumeral(u: nat, base: Base, up: bool)
    ensures IsNumeral(Printed(u, base, up), u, base, up)
    ensures Printed(u, base, up)[0] == '0' <==> u == 0
    decreases u
  {
    hide Printed, HexChar, IsNumeral;
    var q, d := u / base, u % base;
    PrintedStep(u, base, up);
    HexCharReads(d, base, up);
    DivModUnique(u, base, q, d);
    if q == 0 {
      OneDigitNumeral(HexChar(d, up), base, up);
    } else {
      Smaller(u, base);
      PrintedIsNumeral(q, base, up);
      LongerNumeral(Printed(q, base, up), q, HexChar(d, up), base, up);
    }
  }

  lemma OneDigitNumeral(c: char, base: Base, up: bool)
    requires InBase(c, base) && (if up then !('a' <= c <= 'f') else !('A' <= c <= 'F'))
    ensures IsNumeral([c], DigitOf(c), base, up)
  {
    assert [c] == "" + [c];
    NumberSnoc("", c, base);
  }

  lemma LongerNumeral(s: string, n: int, c: char, base: Base, up: bool)
    requires IsNumeral(s, n, base, up) && s[0] != '0'
    requires InBase(c, base) && (if up then !('a' <= c <= 'f') else !('A' <= c <= 'F'))
    ensures IsNumeral(s + [c], n * base + DigitOf(c), base, up) && (s + [c])[0] == s[0]
  {
    hide Number, DigitOf;
    NumberSnoc(s, c, base);
  }

  lemma Smaller(u: nat, base: Base)
    requires u / base != 0
    ensures u / base < u
  {
  }

  // ---------------------------------------------------------------------- C99

  /** The number a conversion is to print: the value, or its size if the conversion is a
      signed one, to 64 bits. */
  function Magnitude(value: int, unsigned: bool): nat
  {
    (if value < 0 && !unsigned then -value else value) % 0x1_0000_0000_0000_0000
  }

  lemma MagnitudeIsUnsigned(value: int, fl: Flags)
    ensures Unsigned(value, fl) == Magnitude(value, fl.unsigned)
    ensures InInt64(value) && !fl.unsigned ==> Magnitude(value, false) == if value < 0 then -value else value
  {
  }

  /** Section 7.19.6.1 of C99 on conversions without grouping, given the numeral: at least
      `precision` digits, none for zero with precision zero, the alternative form of octal
      numbers. */
  function C99Digits(numeral: string, base: Base, precision: int, fl: Flags): string
  {
    var plain := if numeral == "0" && precision == 0 then "" else Repeat('0', precision - |numeral|) + numeral;
    if fl.num && base == 8 && (plain == "" || plain[0] != '0') then "0" + plain else plain
  }

  /** The sign, and the alternative form of hexadecimal numbers other than zero. */
  function C99Front(value: int, numeral: string, base: Base, fl: Flags): string
  {
    (if fl.unsigned then "" else if value < 0 then "-" else if fl.plus then "+" else if fl.space then " " else "")
    + (if fl.num && base == 16 && numeral != "0" then (if fl.up then "0X" else "0x") else "")
  }

  /** And padding to `width` on one side, with zeros only where no precision is given. */
  function C99Int(value: int, numeral: string, base: Base, width: int, precision: int, fl: Flags): string
  {
    var front, digits := C99Front(value, numeral, base, fl), C99Digits(numeral, base, precision, fl);
    Padded(front, digits, width - |front| - |digits|, fl, precision == -1)
  }

  function Padded(front: string, digits: string, pad: int, fl: Flags, noprecision: bool): string
  {
    if fl.minus then front + digits + Repeat(' ', pad)
    else if fl.zero && noprecision then front + (Repeat('0', pad) + digits)
    else Repeat(' ', pad) + (front + digits)
  }

  lemma RepeatJoin(c: char, m: int, n: int)
    requires m >= 0 && n >= 0
    ensures Repeat(c, m) + Repeat(c, n) == Repeat(c, m + n)
  {
  }

  /** Where C99 wants no digit at all, fmtint prints a zero. */
  predicate ZeroHidden(numeral: string, base: Base, precision: int, fl: Flags)
  { numeral == "0" && precision == 0 && !(fl.num && base == 8) }

  /** fmtint follows C99 in every case but that one. */
  lemma IntTextIsC99(value: int, numeral: string, base: Base, width: int, precision: int, fl: Flags, sep: string)
    requires !fl.quote && precision >= -1 && IsNumeral(numeral, Magnitude(value, fl.unsigned), base, fl.up)
    ensures IntText(value, base, width, precision, fl, sep) == C99Int(value, numeral, base, width, precision, fl)
        <==> !ZeroHidden(numeral, base, precision, fl)
  {
    hide IsNumeral, IntText, C99Int;
    var u := Unsigned(value, fl);
    MagnitudeIsUnsigned(value, fl);
    PrintedIsNumeral(u, base, fl.up);
    NumeralUnique(numeral, Printed(u, base, fl.up), u, base, fl.up);
    if ZeroHidden(numeral, base, precision, fl) {
      ZeroShown(value, numeral, base, width, precision, fl, sep);
    } else {
      IntTextFollowsC99(value, numeral, base, width, precision, fl, sep);
    }
  }

  /** Zero is printed as "0", and nothing else is. */
  lemma ZeroNumeral(u: nat, base: Base, up: bool)
    ensures Printed(u, base, up) == "0" <==> u == 0
    ensures Printed(u, base, up)[0] == '0' <==> u == 0
  {
    PrintedIsNumeral(u, base, up);
    PrintedStep(u, base, up);
    hide Printed;
    if u == 0 {
      HexCharReads(0, base, up);
    }
  }

  lemma ZeroShown(value: int, numeral: string, base: Base, width: int, precision: int, fl: Flags, sep: string)
    requires !fl.quote && numeral == Printed(Unsigned(value, fl), base, fl.up)
    requires ZeroHidden(numeral, base, precision, fl)
    ensures '0' in IntText(value, base, width, precision, fl, sep)
    ensures '0' !in C99Int(value, numeral, base, width, precision, fl)
  {
    hide RevDigits, HexChars, Unsigned, Grouped;
    ZeroNumeral(Unsigned(value, fl), base, fl.up);
    assert numeral[0] in numeral;
  }

  lemma IntTextFollowsC99(value: int, numeral: string, base: Base, width: int, precision: int, fl: Flags, sep: string)
    requires !fl.quote && precision >= -1 && numeral == Printed(Unsigned(value, fl), base, fl.up)
    requires !ZeroHidden(numeral, base, precision, fl)
    ensures IntText(value, base, width, precision, fl, sep) == C99Int(value, numeral, base, width, precision, fl)
  {
    hide RevDigits, HexChars, Unsigned, SignText, PrefixText, Grouped, Repeat, Layout, Padded, C99Digits, C99Front;
    hide OctalPrecision;
    var u := Unsigned(value, fl);
    var rev := HexChars(RevDigits(u, base), fl.up);
    var pos := |rev|;
    var p := OctalPrecision(u, base, fl, precision, pos);
    var front := SignText(value, fl) + PrefixText(u, base, fl);
    UngroupedChars(rev, pos);
    FrontAgrees(value, numeral, base, fl);
    DigitsAgree(u, base, precision, fl);
    LayoutIsPadded(front, numeral, Max(p - pos, 0), width - Max(p, pos) - |front|, fl, precision == -1);
  }

  lemma FrontAgrees(value: int, numeral: string, base: Base, fl: Flags)
    requires numeral == Printed(Unsigned(value, fl), base, fl.up)
    ensures SignText(value, fl) + PrefixText(Unsigned(value, fl), base, fl) == C99Front(value, numeral, base, fl)
  {
    hide Printed, Unsigned;
    ZeroNumeral(Unsigned(value, fl), base, fl.up);
  }

  lemma LayoutIsPadded(front: string, digits: string, zpad: nat, pad: int, fl: Flags, noprecision: bool)
    ensures Layout(front, digits, zpad, Max(pad, 0), fl, noprecision)
         == Padded(front, Repeat('0', zpad) + digits, pad, fl, noprecision)
  {
    hide Repeat;
    var spad, zeros := Max(pad, 0), Repeat('0', zpad);
    Clamp(' ', pad);
    Clamp('0', pad);
    RepeatJoin('0', spad, zpad);
    assert front + zeros + digits == front + (zeros + digits);
    assert front + (Repeat('0', spad) + (zeros + digits)) == front + (Repeat('0', spad) + zeros) + digits;
  }

  lemma DigitsAgree(u: nat, base: Base, precision: int, fl: Flags)
    requires precision >= -1 && !ZeroHidden(Printed(u, base, fl.up), base, precision, fl)
    ensures var numeral := Printed(u, base, fl.up);
            var p := OctalPrecision(u, base, fl, precision, |numeral|);
            C99Digits(numeral, base, precision, fl) == Repeat('0', Max(p - |numeral|, 0)) + numeral
  {
    hide Printed;
    ZeroNumeral(u, base, fl.up);
    PrintedIsNumeral(u, base, fl.up);
    hide IsNumeral;
    assert Repeat('0', 1) == "0" && Repeat('0', 0) == "";
  }

  // ------------------------------------------------------------- reading it back

  function SkipBlanks(t: string, i: nat): nat
    decreases |t| - i
  {
    if i < |t| && t[i] == ' ' then SkipBlanks(t, i + 1) else i
  }

  function SkipInBase(t: string, i: nat, base: Base): (j: nat)
    ensures i <= j && (i <= |t| ==> j <= |t|)
    decreases |t| - i
  {
    if i < |t| && InBase(t[i], base) then SkipInBase(t, i + 1, base) else i
  }

  function AfterSign(t: string, a: nat): nat { if CharAt(t, a) == '-' || CharAt(t, a) == '+' then a + 1 else a }

  function AfterPrefix(t: string, b: nat, base: Base): nat
  {
    if base == 16 && CharAt(t, b) == '0' && (CharAt(t, b + 1) == 'x' || CharAt(t, b + 1) == 'X') then b + 2 else b
  }

  /** Reading an integer: blanks, a sign, "0x" or "0X" in base 16, and digits. */
  function Reading(t: string, base: Base): int
  {
    var a := SkipBlanks(t, 0);
    var c := AfterPrefix(t, AfterSign(t, a), base);
    var n := if c <= |t| then Number(t[c..SkipInBase(t, c, base)], base) else 0;
    if CharAt(t, a) == '-' then -n else n
  }

  lemma {:induction false} BlanksSkipped(t: string, i: nat, a: nat)
    requires i <= a <= |t| && (forall k :: i <= k < a ==> t[k] == ' ') && CharAt(t, a) != ' '
    ensures SkipBlanks(t, i) == a
    decreases a - i
  {
    if i < a {
      BlanksSkipped(t, i + 1, a);
    }
  }

  lemma {:induction false} DigitsSkipped(t: string, i: nat, e: nat, base: Base)
    requires i <= e <= |t| && (forall k :: i <= k < e ==> InBase(t[k], base)) && !InBase(CharAt(t, e), base)
    ensures SkipInBase(t, i, base) == e
    decreases e - i
  {
    hide InBase;
    if i < e {
      DigitsSkipped(t, i + 1, e, base);
    }
  }

  lemma {:induction false} LeadingZeros(z: nat, s: string, base: Base)
    ensures Number(Repeat('0', z) + s, base) == Number(s, base)
    decreases z + |s|
  {
    hide DigitOf;
    var t := Repeat('0', z) + s;
    if s != "" {
      LeadingZeros(z, s[..|s| - 1], base);
      assert t[..|t| - 1] == Repeat('0', z) + s[..|s| - 1];
    } else if z > 0 {
      LeadingZeros(z - 1, "", base);
      assert t[..z - 1] == Repeat('0', z - 1) + "" && t[z - 1] == '0';
      assert DigitOf('0') == 0 by { ZeroDigit(); }
    }
  }

  lemma ZeroDigit()
    ensures DigitOf('0') == 0
  {
  }

  /** A text with its blanks, sign, prefix, digits and blanks in place. */
  lemma ReadParts(l: nat, sign: string, prefix: string, digits: string, m: nat, base: Base)
    requires sign == "" || sign == "-" || sign == "+"
    requires prefix == "" || (base == 16 && (prefix == "0x" || prefix == "0X"))
    requires digits != "" && AllInBase(digits, base)
    ensures var t := Repeat(' ', l) + (sign + prefix + digits) + Repeat(' ', m);
            Reading(t, base) == if sign == "-" then -Number(digits, base) else Number(digits, base)
  {
    var t := Repeat(' ', l) + (sign + prefix + digits) + Repeat(' ', m);
    PlacedParts(l, sign, prefix, digits, m);
    hide Repeat, Reading, Number;
    ReadAt(t, l, l + |sign|, l + |sign| + |prefix|, l + |sign| + |prefix| + |digits|, base);
  }

  lemma PlacedParts(l: nat, sign: string, prefix: string, digits: string, m: nat)
    ensures var t := Repeat(' ', l) + (sign + prefix + digits) + Repeat(' ', m);
            var b, c, e := l + |sign|, l + |sign| + |prefix|, l + |sign| + |prefix| + |digits|;
            && e <= |t| && (forall k :: 0 <= k < l ==> t[k] == ' ') && (e < |t| ==> t[e] == ' ')
            && t[l..b] == sign && t[b..c] == prefix && t[c..e] == digits
  {
  }

  lemma ReadAt(t: string, a: nat, b: nat, c: nat, e: nat, base: Base)
    requires a <= b <= c < e <= |t| && (forall k :: 0 <= k < a ==> t[k] == ' ') && (e < |t| ==> t[e] == ' ')
    requires t[a..b] == "" || t[a..b] == "-" || t[a..b] == "+"
    requires t[b..c] == "" || (base == 16 && (t[b..c] == "0x" || t[b..c] == "0X"))
    requires AllInBase(t[c..e], base)
    ensures Reading(t, base) == if t[a..b] == "-" then -Number(t[c..e], base) else Number(t[c..e], base)
  {
    hide InBase, Number, AfterSign, AfterPrefix, SkipBlanks, SkipInBase;
    NotDigits(base);
    forall k | c <= k < e
      ensures InBase(t[k], base)
    {
      assert t[k] == t[c..e][k - c];
    }
    hide AllInBase;
    DigitsSkipped(t, c, e, base);
    PrefixRead(t, b, c, e, base);
    SignRead(t, a, b, base);
    BlanksSkipped(t, 0, a);
  }

  lemma SignRead(t: string, a: nat, b: nat, base: Base)
    requires a <= b < |t| && (t[b] == '0' || InBase(t[b], base))
    requires t[a..b] == "" || t[a..b] == "-" || t[a..b] == "+"
    ensures AfterSign(t, a) == b && t[a] != ' ' && (t[a] == '-' <==> t[a..b] == "-")
  {
    NotDigits(base);
    hide InBase;
    assert |t[a..b]| == b - a;
    assert a < b ==> t[a] == t[a..b][0];
  }

  lemma PrefixRead(t: string, b: nat, c: nat, e: nat, base: Base)
    requires b <= c < e <= |t| && (forall k :: c <= k < e ==> InBase(t[k], base)) && (e < |t| ==> t[e] == ' ')
    requires t[b..c] == "" || (base == 16 && (t[b..c] == "0x" || t[b..c] == "0X"))
    ensures AfterPrefix(t, b, base) == c && (t[b] == '0' || InBase(t[b], base))
  {
    NotDigits(base);
    hide InBase;
    assert |t[b..c]| == c - b;
    assert b < c ==> t[b] == t[b..c][0] && t[b + 1] == t[b..c][1];
  }

  lemma NotDigits(base: Base)
    ensures !InBase(' ', base) && !InBase('-', base) && !InBase('+', base) && !InBase('\0', base)
    ensures !InBase('x', base) && !InBase('X', base)
  {
  }

  lemma ReadFront(l: nat, sign: string, prefix: string, digits: string, m: nat, base: Base)
    requires sign == "" || sign == "-" || sign == "+" || sign == " "
    requires prefix == "" || (base == 16 && (prefix == "0x" || prefix == "0X"))
    requires digits != "" && AllInBase(digits, base)
    ensures var t := Repeat(' ', l) + (sign + prefix + digits) + Repeat(' ', m);
            Reading(t, base) == if sign == "-" then -Number(digits, base) else Number(digits, base)
  {
    hide Reading, Number, AllInBase;
    if sign == " " {
      RepeatJoin(' ', l, 1);
      assert Repeat(' ', 1) == " ";
      assert Repeat(' ', l) + (sign + prefix + digits) == Repeat(' ', l + 1) + ("" + prefix + digits);
      ReadParts(l + 1, "", prefix, digits, m, base);
    } else {
      ReadParts(l, sign, prefix, digits, m, base);
    }
  }

  lemma LayoutForm(front: string, digits: string, zpad: nat, spad: nat, fl: Flags, noprecision: bool)
    returns (l: nat, z: nat, m: nat)
    ensures Layout(front, digits, zpad, spad, fl, noprecision)
         == Repeat(' ', l) + (front + (Repeat('0', z) + digits)) + Repeat(' ', m)
  {
    NoCopies(' ');
    hide Repeat;
    l, z, m := 0, zpad, 0;
    if fl.minus {
      m := spad;
    } else if fl.zero && noprecision {
      z := zpad + spad;
    } else {
      l := spad;
    }
    assert front + Repeat('0', z) + digits == front + (Repeat('0', z) + digits);
  }

  /** Whatever the width, the precision and the flags, the text reads back to the value:
      signed, or as an unsigned 64-bit number. */
  lemma IntTextReads(value: int, base: Base, width: int, precision: int, fl: Flags, sep: string)
    requires !fl.quote
    ensures var n := Reading(IntText(value, base, width, precision, fl, sep), base);
            && (fl.unsigned ==> n == value % 0x1_0000_0000_0000_0000)
            && (!fl.unsigned && InInt64(value) ==> n == value)
  {
    hide Reading, Unsigned, HexChars, RevDigits, Grouped, Layout, Repeat, SignText, PrefixText, Number;
    MagnitudeIsUnsigned(value, fl);
    var u := Unsigned(value, fl);
    var rev := HexChars(RevDigits(u, base), fl.up);
    var pos := |rev|;
    var p := OctalPrecision(u, base, fl, precision, pos);
    var sign, prefix := SignText(value, fl), PrefixText(u, base, fl);
    var spad := Max(width - Max(p, pos) - |sign + prefix|, 0);
    var l, z, m := LayoutForm(sign + prefix, Printed(u, base, fl.up), Max(p - pos, 0), spad, fl, precision == -1);
    var digits := Repeat('0', z) + Printed(u, base, fl.up);
    Body(z, u, base, fl.up);
    Fronts(value, u, base, fl);
    assert sign + prefix + digits == (sign + prefix) + digits;
    ReadFront(l, sign, prefix, digits, m, base);
  }

  lemma Body(z: nat, u: nat, base: Base, up: bool)
    ensures var digits := Repeat('0', z) + Printed(u, base, up);
            digits != "" && AllInBase(digits, base) && Number(digits, base) == u
  {
    hide Printed, Number;
    PrintedIsNumeral(u, base, up);
    LeadingZeros(z, Printed(u, base, up), base);
    ZeroDigit();
    hide DigitOf;
  }

  lemma Fronts(value: int, u: nat, base: Base, fl: Flags)
    ensures var sign, prefix := SignText(value, fl), PrefixText(u, base, fl);
            && (sign == "" || sign == "-" || sign == "+" || sign == " ")
            && (sign == "-" <==> value < 0 && !fl.unsigned)
            && (prefix == "" || (base == 16 && (prefix == "0x" || prefix == "0X")))
  {
  }

  /** Grouping sets off three digits at a time from the right. */
  lemma {:induction false} GroupedByThree(rev: string, n: nat, sep: string)
    requires n <= |rev|
    ensures n <= 3 ==> Grouped(rev, n, sep) == Grouped(rev, n, "")
    ensures n > 3 ==> Grouped(rev, n, sep) == Grouped(rev[3..], n - 3, sep) + (sep + Grouped(rev, 3, ""))
    decreases n
  {
    hide Grouped;
    GroupedFirst(rev, n, sep);
    GroupedFirst(rev, n, "");
    if n > 3 {
      GroupedByThree(rev, n - 1, sep);
      GroupedFirst(rev[3..], n - 3, sep);
      GroupedFirst(rev[3..], 0, sep);
      ThreeBack(n);
      var tail := sep + Grouped(rev, 3, "");
      var more := if n > 4 && (n - 1) % 3 == 0 then sep else "";
      if n > 4 {
        assert [rev[n - 1]] + more + (Grouped(rev[3..], n - 4, sep) + tail)
            == ([rev[n - 1]] + more + Grouped(rev[3..], n - 4, sep)) + tail;
      }
    } else if n > 0 {
      GroupedByThree(rev, n - 1, sep);
    }
  }

  lemma ThreeBack(n: nat)
    requires n > 3
    ensures (n - 1) % 3 == 0 <==> (n - 4) % 3 == 0
  {
  }

  lemma GroupedFirst(rev: string, n: nat, sep: string)
    requires n <= |rev|
    ensures n == 0 ==> Grouped(rev, n, sep) == ""
    ensures n > 0 ==>
              var more := if n > 1 && (n - 1) % 3 == 0 then sep else "";
              Grouped(rev, n, sep) == [rev[n - 1]] + more + Grouped(rev, n - 1, sep)
  {
  }

  // ------------------------------------------------------------------ conversions

  /** v is the word cut to so many bits and read as a signed (an unsigned) number. */
  predicate IsSigned(v: int, word: int, bits: nat)
  { 0 <= 2 * v + Pow2(bits) < 2 * Pow2(bits) && (v - word) % Pow2(bits) == 0 }

  predicate IsUnsigned(v: int, word: int, bits: nat) { 0 <= v < Pow2(bits) && (v - word) % Pow2(bits) == 0 }

  /** The width of an argument of an integer conversion. */
  function Bits(mod: Mod): nat
  {
    match mod
    case CharMod => 8
    case ShortMod => 16
    case NoMod | LdoubleMod => 32
    case LongMod | LlongMod | SizeMod | PtrdiffMod | IntmaxMod => 64
  }

  lemma Widths()
    ensures Pow2(8) == 256 && Pow2(16) == 65536 && Pow2(32) == TWO32 && Pow2(64) == TWO64
  {
    Pow2Values();
    assert Pow2(8) == 2 * Pow2(7);
    assert Pow2(28) == 8 * Pow2(25);
    assert Pow2(32) == 16 * Pow2(28);
    Pow2Sum(32, 32);
  }

  lemma {:induction false} Pow2Sum(a: nat, b: nat)
    ensures Pow2(a + b) == Pow2(a) * Pow2(b)
    decreases b
  {
    if b > 0 {
      Pow2Sum(a, b - 1);
      assert Pow2(a + b) == 2 * Pow2(a + b - 1) && Pow2(b) == 2 * Pow2(b - 1);
      assert Pow2(a) * (2 * Pow2(b - 1)) == 2 * (Pow2(a) * Pow2(b - 1));
    }
  }

  lemma Cut(word: int, size: int)
    requires size > 0
    ensures (word % size - word) % size == 0 && (word % size - size - word) % size == 0
  {
    var q := word / size;
    assert word % size - word == size * (-q);
    DivModUnique(word % size - word, size, -q, 0);
    DivModUnique(word % size - size - word, size, -q - 1, 0);
  }

  /** The arguments of signed and of unsigned conversions. */
  lemma ArgumentWidths(word: int, mod: Mod)
    ensures IsSigned(SignedArg(word, mod), word, Bits(mod)) && InInt64(SignedArg(word, mod))
    ensures IsUnsigned(UnsignedArg(word, mod) % 0x1_0000_0000_0000_0000, word, Bits(mod))
  {
    Widths();
    hide Pow2;
    Cut(word, 256);
    Cut(word, 65536);
    Cut(word, TWO32);
    Cut(word, TWO64);
    SmallMod(UnsignedArg(word, mod));
    SmallMod(S64(word) + TWO64);
  }

  lemma SmallMod(x: int)
    ensures 0 <= x < TWO64 ==> x % TWO64 == x
    ensures (x - TWO64) % TWO64 == x % TWO64
  {
    DivModUnique(x - TWO64, TWO64, x / TWO64 - 1, x % TWO64);
  }

  /** The text of an integer conversion reads back to its argument, in the width that its
      modifier says; the letters in it are capitals for 'X', else small ones. */
  lemma IntegerConversions(c: char, d: Directive, a: Arg, len: nat, sep: string)
    requires c in {'d', 'i', 'u', 'o', 'x', 'X'} && !d.flags.quote && !d.flags.unsigned && !d.flags.up
    ensures var e, base := EffectOf(c, d, a, len, sep), if c == 'o' then 8 else if c in {'x', 'X'} then 16 else 10;
            && e.takes && e.stored == [] && !e.failed
            && (if c in {'d', 'i'} then IsSigned(Reading(e.text, base), a.word, Bits(d.mod))
                else IsUnsigned(Reading(e.text, base), a.word, Bits(d.mod)))
            && (forall k :: 0 <= k < |e.text| ==>
                  if c == 'X' then !('a' <= e.text[k] <= 'z') else !('A' <= e.text[k] <= 'Z'))
  {
    hide IntText, Reading, SignedArg, UnsignedArg, IsSigned, IsUnsigned;
    ArgumentWidths(a.word, d.mod);
    var base: Base := if c == 'o' then 8 else if c in {'x', 'X'} then 16 else 10;
    var fl := d.flags.(unsigned := c !in {'d', 'i'}, up := c == 'X');
    var v := if c in {'d', 'i'} then SignedArg(a.word, d.mod) else UnsignedArg(a.word, d.mod);
    IntTextReads(v, base, d.width, d.precision, fl, sep);
    IntTextCase(v, base, d.width, d.precision, fl, sep);
  }

  predicate CaseOf(s: string, up: bool)
  {
    forall k :: 0 <= k < |s| ==> if up then !('a' <= s[k] <= 'z') else !('A' <= s[k] <= 'Z')
  }

  lemma IntTextCase(value: int, base: Base, width: int, precision: int, fl: Flags, sep: string)
    requires !fl.quote
    ensures CaseOf(IntText(value, base, width, precision, fl, sep), fl.up)
  {
    hide Unsigned, HexChars, RevDigits, Grouped, Layout, SignText, PrefixText, CaseOf, Repeat;
    var u := Unsigned(value, fl);
    var rev := HexChars(RevDigits(u, base), fl.up);
    var pos := |rev|;
    var p := OctalPrecision(u, base, fl, precision, pos);
    var front := SignText(value, fl) + PrefixText(u, base, fl);
    var spad := Max(width - Max(p, pos) - |front|, 0);
    var l, z, m := LayoutForm(front, Printed(u, base, fl.up), Max(p - pos, 0), spad, fl, precision == -1);
    PrintedCase(u, base, fl.up);
    FrontCase(value, u, base, fl);
    CopiesCase(l, z, m, fl.up);
    CaseJoin(Repeat('0', z), Printed(u, base, fl.up), fl.up);
    CaseJoin(front, Repeat('0', z) + Printed(u, base, fl.up), fl.up);
    CaseJoin(Repeat(' ', l), front + (Repeat('0', z) + Printed(u, base, fl.up)), fl.up);
    CaseJoin(Repeat(' ', l) + (front + (Repeat('0', z) + Printed(u, base, fl.up))), Repeat(' ', m), fl.up);
  }

  lemma CaseJoin(s: string, t: string, up: bool)
    requires CaseOf(s, up) && CaseOf(t, up)
    ensures CaseOf(s + t, up)
  {
  }

  lemma FrontCase(value: int, u: nat, base: Base, fl: Flags)
    ensures CaseOf(SignText(value, fl) + PrefixText(u, base, fl), fl.up)
  {
    CaseJoin(SignText(value, fl), PrefixText(u, base, fl), fl.up);
  }

  lemma CopiesCase(l: nat, z: nat, m: nat, up: bool)
    ensures CaseOf(Repeat(' ', l), up) && CaseOf(Repeat('0', z), up) && CaseOf(Repeat(' ', m), up)
  {
  }

  lemma PrintedCase(u: nat, base: Base, up: bool)
    ensures CaseOf(Printed(u, base, up), up)
  {
    PrintedIsNumeral(u, base, up);
    hide Printed;
    var s := Printed(u, base, up);
    forall k | 0 <= k < |s|
      ensures if up then !('a' <= s[k] <= 'z') else !('A' <= s[k] <= 'Z')
    {
      assert InBase(s[k], base);
    }
  }

  /** The other conversions: characters, strings, counts and the percent sign. */
  lemma OtherConversions(d: Directive, a: Arg, len: nat, sep: string)
    ensures var e := EffectOf('c', d, a, len, sep);
            e.takes && e.stored == [] && !e.failed && |e.text| == 1 && e.text[0] as int == a.word % 256
    ensures var e := EffectOf('s', d, a, len, sep);
            && e.takes && e.stored == [] && !e.failed
            && e.text == StrText(Some(if a.text.Some? then a.text.value else "(null)"), d.width, d.precision, d.flags)
    ensures var e := EffectOf('n', d, a, len, sep);
            e.takes && |e.stored| == 1 && IsSigned(e.stored[0], len, Bits(d.mod)) && !e.failed && e.text == ""
    ensures EffectOf('%', d, a, len, sep) == Effect("%", false, [], false)
  {
    hide SignedArg, IsSigned;
    ArgumentWidths(len, d.mod);
  }

  /** A pointer is printed in base 16, and a null one as "(nil)". */
  lemma PointerConversion(d: Directive, a: Arg, len: nat, sep: string)
    requires !d.flags.quote
    ensures var e := EffectOf('p', d, a, len, sep);
            && e.takes && e.stored == [] && !e.failed
            && (if a.word % 0x1_0000_0000_0000_0000 == 0 then e.text == StrText(Some("(nil)"), d.width, -1, d.flags)
                else Reading(e.text, 16) == a.word % 0x1_0000_0000_0000_0000)
  {
    hide IntText, StrText, Reading, S64, U64;
    IntTextReads(S64(a.word), 16, d.width, d.precision, d.flags.(unsigned := true, num := true), sep);
    SameWord(a.word);
  }

  lemma SameWord(x: int)
    ensures S64(x) % TWO64 == x % TWO64 && U64(x) == x % TWO64
  {
    SmallMod(x % TWO64);
  }

  /** A star takes the width or the precision from the arguments, as a 32-bit number: a
      negative width is one to the left, a negative precision is none. */
  lemma Stars(f: string, i: nat, args: seq<Arg>, d: Directive) returns (n: int)
    requires i < |f| && f[i] == '*'
    ensures IsSigned(n, First(args).word, 32)
    ensures FromWidth(f, i, args, d)
         == FromDot(f, i + 1, Others(args), Directive(if n < 0 then d.flags.(minus := true) else d.flags,
                                                      if n < 0 then -n else n, d.precision, d.mod))
    ensures FromPrecision(f, i, args, d)
         == FromMod(f, i + 1, Others(args), Directive(d.flags, d.width, if n < 0 then -1 else n, d.mod))
  {
    hide S32, FromDot, FromMod, IsSigned;
    n := S32(First(args).word);
    ArgumentWidths(First(args).word, NoMod);
  }

  // ------------------------------------------------------------------- formats

  /** Characters outside of directives stand for themselves. */
  lemma {:induction false} PlainText(f: string, i: nat, j: nat, args: seq<Arg>, len: nat, sep: string)
    requires i <= j <= |f| && forall k :: i <= k < j ==> f[k] != '%' && f[k] != '\0'
    ensures Formatted(f, i, args, len, sep) == Prepend(f[i..j], [], Formatted(f, j, args, len + (j - i), sep))
    decreases j - i
  {
    hide Converted, FromFlags;
    if i == j {
      NothingAdded(Formatted(f, i, args, len, sep));
      assert f[i..j] == "";
    } else {
      PlainText(f, i + 1, j, args, len + 1, sep);
      var rest := Formatted(f, j, args, len + (j - i), sep);
      assert f[i..j] + rest.text == [f[i]] + (f[i + 1..j] + rest.text);
    }
  }

  /** And a directive for what its conversion prints of the next argument; then the rest
      of the format follows, unless the conversion fails. */
  lemma OneDirective(f: string, i: nat, args: seq<Arg>, len: nat, sep: string, d: Directive)
    requires Writable(d) && i + 1 + |DirectiveText(d)| < |f| && f[i] == '%'
    requires f[i + 1..i + 1 + |DirectiveText(d)|] == DirectiveText(d) && IsConversion(f[i + 1 + |DirectiveText(d)|])
    ensures var j := i + 1 + |DirectiveText(d)|;
            var e := EffectOf(f[j], d, First(args), len, sep);
            Formatted(f, i, args, len, sep)
            == if e.failed then Output(e.text, e.stored, true)
               else Prepend(e.text, e.stored,
                            Formatted(f, j + 1, if e.takes then Others(args) else args, len + |e.text|, sep))
  {
    hide DirectiveText, FromFlags, EffectOf;
    DirectiveReadBack(f, i + 1, args, d);
    var j := i + 1 + |DirectiveText(d)|;
    assert f[j] != '\0' by { NotEnd(f[j]); }
    assert Formatted(f, i, args, len, sep) == Converted(f, Item(d, j, args), len, sep);
  }

  lemma NotEnd(c: char)
    requires IsConversion(c)
    ensures c != '\0'
  {
  }

  /** What the buffer holds: as much of the text as leaves room for a NUL, the NUL, and
      behind it what was there before. */
  lemma BoundedMeaning(text: string, size: nat, before: seq<char>)
    requires size <= |before|
    ensures var s := Bounded(text, size, before);
            && |s| == |before|
            && (size == 0 ==> s == before)
            && (size > 0 ==>
                  var n := if |text| < size then |text| else size - 1;
                  n < |s| && s[..n] == text[..n] && s[n] == '\0' && s[n + 1..] == before[n + 1..])
  {
  }
}
