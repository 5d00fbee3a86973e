/** libntp/snprintf.c: the bounded formatter.  Conversions for floating point are
    represented by the characters they emit; everything else is modelled. */
module Formatter {
  import opened CStrings
  import opened Decimal
  import opened Options
  import opened Words

  const INT_MAX := 0x7fff_ffff

  datatype Flags = Flags(
    minus: bool, plus: bool, space: bool, num: bool, zero: bool, quote: bool, up: bool, unsigned: bool)

  const NO_FLAGS := Flags(false, false, false, false, false, false, false, false)

  datatype Mod = NoMod | CharMod | ShortMod | LongMod | LlongMod | LdoubleMod | SizeMod | PtrdiffMod | IntmaxMod

  /** A variable argument: its word, the string it points to if it is a pointer to
      one, and what a floating-point conversion makes of it.  The list is read as
      going on with zeros. */
  datatype Arg = Arg(word: int, text: Option<string>, float: string, tooLarge: bool)

  function First(args: seq<Arg>): Arg { if args == [] then Arg(0, None, "", false) else args[0] }

  function Others(args: seq<Arg>): seq<Arg> { if args == [] then [] else args[1..] }

  function Max(a: int, b: int): int { if a >= b then a else b }

  function Repeat(c: char, n: int): (s: string)
    ensures |s| == Max(n, 0)
  { seq(Max(n, 0), _ => c) }

  // -------------------------------------------------------------------- digits

  type Base = b: int | b == 8 || b == 10 || b == 16 witness 10

  /** Digits, least significant first; at least one. */
  function RevDigits(v: nat, base: Base): (ds: seq<int>)
    ensures ds != []
  {
    [v % base] + if v / base == 0 then [] else RevDigits(v / base, base)
  }

  function RevValue(ds: seq<int>, base: Base): int
  {
    if ds == [] then 0 else ds[0] + base * RevValue(ds[1..], base)
  }

  /** The digits denote the number, and there is no superfluous zero. */
  lemma {:induction false} RevDigitsDenote(v: nat, base: Base)
    ensures var ds := RevDigits(v, base);
            && RevValue(ds, base) == v
            && (forall i :: 0 <= i < |ds| ==> 0 <= ds[i] < base)
            && (|ds| > 1 ==> ds[|ds| - 1] != 0)
    decreases v
  {
    var ds := RevDigits(v, base);
    if v / base != 0 {
      RevDigitsDenote(v / base, base);
      assert ds[1..] == RevDigits(v / base, base);
    } else {
      assert ds[1..] == [];
    }
  }

  function Pow8(k: nat): nat { if k == 0 then 1 else 8 * Pow8(k - 1) }

  /** Twenty-two digits hold any 64-bit number. */
  lemma {:induction false} RevDigitsShort(v: nat, base: Base, k: nat)
    requires v < Pow8(k)
    ensures |RevDigits(v, base)| <= Max(k, 1)
    decreases k
  {
    hide RevDigits;
    OneMoreDigit(v, base);
    if k > 1 && v / base != 0 {
      QuotientShrinks(v, base, Pow8(k - 1));
      RevDigitsShort(v / base, base, k - 1);
    }
  }

  lemma QuotientShrinks(v: nat, base: Base, p: nat)
    requires v < 8 * p
    ensures v / base < p
  {
  }

  function HexChar(d: int, up: bool): char
  {
    if 0 <= d < 10 then (48 + d) as char
    else if 10 <= d < 16 then (if up then 55 + d else 87 + d) as char
    else '\0'
  }

  function HexChars(ds: seq<int>, up: bool): (s: string)
    ensures |s| == |ds|
  { seq(|ds|, i requires 0 <= i < |ds| => HexChar(ds[i], up)) }

  /** convert: the characters of the digits, least significant first. */
  method Convert(number: nat, size: nat, base: Base, caps: bool) returns (buf: string)
    requires number < TWO64 && size >= 43
    ensures buf == HexChars(RevDigits(number, base), caps)
  {
    hide RevDigits, HexChars, HexChar;
    var value: nat := number;
    ghost var done: seq<int> := [];
    ghost var all := RevDigits(number, base);
    buf := "";
    RevDigitsFit(number, base);
    NoChars(caps);
    assert all == [] + all;
    while true
      invariant buf == HexChars(done, caps) && all == done + RevDigits(value, base) && |buf| < size
      decreases value
    {
      OneMoreDigit(value, base);
      ghost var left := RevDigits(value, base);
      CharsSnoc(done, value % base, caps);
      Shift(all, done, left);
      buf := buf + [HexChar(value % base, caps)];
      done := done + [value % base];
      value := value / base;
      assert value == 0 ==> all == done;
      if value == 0 || |buf| >= size {
        break;
      }
    }
  }

  lemma NoChars(up: bool)
    ensures HexChars([], up) == ""
  {
  }

  lemma CharsSnoc(ds: seq<int>, d: int, up: bool)
    ensures HexChars(ds + [d], up) == HexChars(ds, up) + [HexChar(d, up)]
  {
  }

  lemma Shift(all: seq<int>, done: seq<int>, left: seq<int>)
    requires all == done + left && left != []
    ensures all == done + [left[0]] + left[1..]
  {
  }

  lemma OneMoreDigit(v: nat, base: Base)
    ensures var ds := RevDigits(v, base);
            ds[0] == v % base && ds[1..] == if v / base == 0 then [] else RevDigits(v / base, base)
  {
  }

  lemma RevDigitsFit(v: nat, base: Base)
    requires v < TWO64
    ensures |RevDigits(v, base)| <= 22
  {
    hide RevDigits;
    PowerOfEight();
    hide Pow8;
    RevDigitsShort(v, base, 22);
  }

  lemma PowerOfEight()
    ensures Pow8(22) == 4 * TWO64
  {
    assert Pow8(4) == 4096;
    assert Pow8(8) == 0x100_0000;
    assert Pow8(12) == 0x10_0000_0000;
    assert Pow8(16) == 0x1_0000_0000_0000;
    assert Pow8(20) == 0x1000_0000_0000_0000;
  }

  // ------------------------------------------------------------------ integers

  /** The number whose digits are printed. */
  function Unsigned(value: int, fl: Flags): (u: nat)
    ensures u < TWO64
  { U64(if fl.unsigned || value >= 0 then value else -value) }

  function SignText(value: int, fl: Flags): string
  {
    if fl.unsigned then "" else if value < 0 then "-" else if fl.plus then "+" else if fl.space then " " else ""
  }

  function PrefixText(u: nat, base: Base, fl: Flags): string
  {
    if fl.num && u != 0 && base == 16 then (if fl.up then "0X" else "0x") else ""
  }

  /** The alternative form of octal conversion raises the precision. */
  function OctalPrecision(u: nat, base: Base, fl: Flags, precision: int, pos: int): int
  {
    if fl.num && u != 0 && base == 8 && precision <= pos then pos + 1 else precision
  }

  /** getnumsep */
  function Separators(fl: Flags, pos: int, sep: string): int
  {
    if fl.quote then (pos - (if pos % 3 == 0 then 1 else 0)) / 3 * |sep| else 0
  }

  /** The last n digits, most significant first, a separator before every third. */
  function Grouped(rev: string, n: nat, sep: string): string
    requires n <= |rev|
  {
    if n == 0 then ""
    else [rev[n - 1]] + (if n > 1 && (n - 1) % 3 == 0 then sep else "") + Grouped(rev, n - 1, sep)
  }

  /** What fmtint emits. */
  function IntText(value: int, base: Base, width: int, precision: int, fl: Flags, sep: string): string
  {
    var u := Unsigned(value, fl);
    var rev := HexChars(RevDigits(u, base), fl.up);
    var pos := |rev|;
    var p := OctalPrecision(u, base, fl, precision, pos);
    var seps := Separators(fl, pos, sep);
    var front := SignText(value, fl) + PrefixText(u, base, fl);
    var zpad := Max(p - pos - seps, 0);
    var spad := Max(width - seps - Max(p, pos) - |front|, 0);
    Layout(front, Grouped(rev, pos, if fl.quote then sep else ""), zpad, spad, fl, precision == -1)
  }

  /** Sign and prefix, zeros and digits, and the padding on the side asked for. */
  function Layout(front: string, digits: string, zpad: nat, spad: nat, fl: Flags, noprecision: bool): (s: string)
    ensures |s| == |front| + |digits| + zpad + spad
  {
    if fl.minus then front + Repeat('0', zpad) + digits + Repeat(' ', spad)
    else if fl.zero && noprecision then front + Repeat('0', zpad + spad) + digits
    else Repeat(' ', spad) + (front + Repeat('0', zpad) + digits)
  }

  lemma {:induction false} GroupedLength(rev: string, n: nat, sep: string)
    requires n <= |rev|
    ensures |Grouped(rev, n, sep)| == n + (if n == 0 then 0 else (n - (if n % 3 == 0 then 1 else 0)) / 3 * |sep|)
    decreases n
  {
    if n > 0 {
      GroupedLength(rev, n - 1, sep);
      SeparatorStep(n, |sep|);
    }
  }

  lemma SeparatorStep(n: nat, k: nat)
    requires n > 0
    ensures (n - (if n % 3 == 0 then 1 else 0)) / 3 * k
         == (if n > 1 && (n - 1) % 3 == 0 then k else 0)
          + (if n == 1 then 0 else ((n - 1) - (if (n - 1) % 3 == 0 then 1 else 0)) / 3 * k)
  {
    var a, b := (n - (if n % 3 == 0 then 1 else 0)) / 3, ((n - 1) - (if (n - 1) % 3 == 0 then 1 else 0)) / 3;
    if n > 1 && (n - 1) % 3 == 0 {
      assert a == b + 1;
      assert (b + 1) * k == b * k + k;
    } else if n > 1 {
      assert a == b;
    }
  }

  /** How many characters that is; without separators it is the larger of the width
      and of what sign, prefix and digits need. */
  lemma IntTextLength(value: int, base: Base, width: int, precision: int, fl: Flags, sep: string)
    ensures var u := Unsigned(value, fl);
            var pos := |RevDigits(u, base)|;
            var p := OctalPrecision(u, base, fl, precision, pos);
            var seps := Separators(fl, pos, sep);
            var front := |SignText(value, fl)| + |PrefixText(u, base, fl)|;
            var n := |IntText(value, base, width, precision, fl, sep)|;
            && n == front + Max(p, pos + seps) + Max(width - seps - Max(p, pos) - front, 0)
            && (seps == 0 ==> n == Max(width, front + Max(p, pos)))
            && (n >= width <==> seps == 0 || p <= pos || width <= front + Max(p, pos + seps))
  {
    hide RevDigits, Unsigned, SignText, PrefixText, OctalPrecision, HexChars, Grouped, Layout, Separators;
    var u := Unsigned(value, fl);
    var pos := |RevDigits(u, base)|;
    GroupedDigits(HexChars(RevDigits(u, base), fl.up), fl, sep);
  }

  /** A field of eight with five digits and a separator is seven characters wide. */
  lemma NarrowField()
    ensures |IntText(1234, 10, 8, 5, NO_FLAGS.(quote := true), ",")| == 7
  {
    hide IntText;
    var fl := NO_FLAGS.(quote := true);
    assert Unsigned(1234, fl) == 1234;
    FourDigits();
    IntTextLength(1234, 10, 8, 5, fl, ",");
  }

  lemma FourDigits()
    ensures |RevDigits(1234, 10)| == 4
  {
    OneMoreDigit(1234, 10);
    OneMoreDigit(123, 10);
    OneMoreDigit(12, 10);
    OneMoreDigit(1, 10);
  }

  lemma GroupedDigits(rev: string, fl: Flags, sep: string)
    requires rev != ""
    ensures |Grouped(rev, |rev|, if fl.quote then sep else "")| == |rev| + Separators(fl, |rev|, sep)
    ensures Separators(fl, |rev|, sep) >= 0
  {
    GroupedLength(rev, |rev|, if fl.quote then sep else "");
    var n := (|rev| - (if |rev| % 3 == 0 then 1 else 0)) / 3;
    assert n * |sep| >= 0 && n * |""| == 0;
  }

  lemma Clamp(c: char, n: int)
    ensures Repeat(c, n) == Repeat(c, Max(n, 0))
  {
  }

  // ------------------------------------------------------------------- strings

  /** Length up to the NUL, or up to the precision if there is one. */
  function StrLen(s: string, i: nat, precision: int): (n: nat)
    requires i <= |s|
    ensures i <= n <= |s|
    decreases |s| - i
  {
    if CharAt(s, i) != '\0' && (precision == -1 || i < precision) then StrLen(s, i + 1, precision) else i
  }

  function StrText(value: Option<string>, width: int, precision: int, fl: Flags): string
  {
    var s := if value.Some? then value.value else "(null)";
    var t := s[..StrLen(s, 0, precision)];
    if fl.minus then t + Repeat(' ', width - |t|) else Repeat(' ', width - |t|) + t
  }

  /** It is the longest NUL-free prefix within the precision, padded to the width. */
  lemma StrTextMeaning(s: string, width: int, precision: int, fl: Flags)
    requires precision >= -1
    ensures var n := StrLen(s, 0, precision);
            && '\0' !in s[..n] && (precision >= 0 ==> n <= precision)
            && (n == |s| || s[n] == '\0' || n == precision)
            && |StrText(Some(s), width, precision, fl)| == Max(width, n)
            && s[..n] == (if fl.minus then StrText(Some(s), width, precision, fl)[..n]
                          else StrText(Some(s), width, precision, fl)[Max(width - n, 0)..])
  {
    StrLenStops(s, 0, precision);
  }

  lemma {:induction false} StrLenStops(s: string, i: nat, precision: int)
    requires i <= |s| && precision >= -1 && (precision >= 0 ==> i <= precision)
    ensures var n := StrLen(s, i, precision);
            && '\0' !in s[i..n] && (precision >= 0 ==> n <= precision)
            && (n == |s| || s[n] == '\0' || n == precision)
    decreases |s| - i
  {
    if CharAt(s, i) != '\0' && (precision == -1 || i < precision) {
      StrLenStops(s, i + 1, precision);
      assert s[i..StrLen(s, i, precision)] == [s[i]] + s[i + 1..StrLen(s, i, precision)];
    }
  }

  // ---------------------------------------------------------------- directives

  datatype Directive = Directive(flags: Flags, width: int, precision: int, mod: Mod)

  const NO_DIRECTIVE := Directive(NO_FLAGS, 0, -1, NoMod)

  /** A directive read up to its conversion character, or a number too large. */
  datatype Item = TooLarge | Item(d: Directive, next: nat, args: seq<Arg>)

  function SetFlag(fl: Flags, c: char): Option<Flags>
  {
    match c
    case '-' => Some(fl.(minus := true))
    case '+' => Some(fl.(plus := true))
    case ' ' => Some(fl.(space := true))
    case '#' => Some(fl.(num := true))
    case '0' => Some(fl.(zero := true))
    case '\'' => Some(fl.(quote := true))
    case _ => None
  }

  function FromFlags(f: string, i: nat, args: seq<Arg>, d: Directive): (r: Item)
    requires i <= |f|
    ensures r.Item? ==> i <= r.next <= |f|
    decreases |f| - i
  {
    var c := CharAt(f, i);
    if SetFlag(d.flags, c).Some? then FromFlags(f, i + 1, args, d.(flags := SetFlag(d.flags, c).value))
    else FromWidth(f, i, args, d)
  }

  function Grown(n: int, c: char): int
    requires IsDigit(c)
  { 10 * n + DigitValue(c) }

  predicate Overflows(n: int, c: char)
    requires IsDigit(c)
  { n > (INT_MAX - DigitValue(c)) / 10 }

  function StarWidth(d: Directive, w: int): Directive
  { if w < 0 then d.(flags := d.flags.(minus := true), width := -w) else d.(width := w) }

  function FromWidth(f: string, i: nat, args: seq<Arg>, d: Directive): (r: Item)
    requires i <= |f|
    ensures r.Item? ==> i <= r.next <= |f|
    decreases |f| - i
  {
    var c := CharAt(f, i);
    if IsDigit(c) then
      if Overflows(d.width, c) then TooLarge else FromWidth(f, i + 1, args, d.(width := Grown(d.width, c)))
    else if c == '*' then FromDot(f, i + 1, Others(args), StarWidth(d, S32(First(args).word)))
    else FromDot(f, i, args, d)
  }

  function FromDot(f: string, i: nat, args: seq<Arg>, d: Directive): (r: Item)
    requires i <= |f|
    ensures r.Item? ==> i <= r.next <= |f|
  {
    if CharAt(f, i) == '.' then FromPrecision(f, i + 1, args, d) else FromMod(f, i, args, d)
  }

  function Begun(d: Directive): Directive { if d.precision == -1 then d.(precision := 0) else d }

  function FromPrecision(f: string, i: nat, args: seq<Arg>, d: Directive): (r: Item)
    requires i <= |f|
    ensures r.Item? ==> i <= r.next <= |f|
    decreases |f| - i
  {
    var c, d0 := CharAt(f, i), Begun(d);
    if IsDigit(c) then
      if Overflows(d0.precision, c) then TooLarge
      else FromPrecision(f, i + 1, args, d0.(precision := Grown(d0.precision, c)))
    else if c == '*' then
      var p := S32(First(args).word);
      FromMod(f, i + 1, Others(args), d0.(precision := if p < 0 then -1 else p))
    else FromMod(f, i, args, d0)
  }

  function FromMod(f: string, i: nat, args: seq<Arg>, d: Directive): (r: Item)
    requires i <= |f|
    ensures r.Item? && i <= r.next <= |f|
  {
    var c, c2 := CharAt(f, i), CharAt(f, i + 1);
    if c == 'h' && c2 == 'h' then Item(d.(mod := CharMod), i + 2, args)
    else if c == 'h' then Item(d.(mod := ShortMod), i + 1, args)
    else if c == 'l' && c2 == 'l' then Item(d.(mod := LlongMod), i + 2, args)
    else if c == 'l' then Item(d.(mod := LongMod), i + 1, args)
    else if c == 'L' then Item(d.(mod := LdoubleMod), i + 1, args)
    else if c == 'j' then Item(d.(mod := IntmaxMod), i + 1, args)
    else if c == 't' then Item(d.(mod := PtrdiffMod), i + 1, args)
    else if c == 'z' then Item(d.(mod := SizeMod), i + 1, args)
    else Item(d, i, args)
  }

  // ------------------------------------------------------- reading directives back

  /** A number of digits is read exactly, and refused exactly when it exceeds INT_MAX. */
  lemma {:induction false} WidthNumber(f: string, i: nat, j: nat, args: seq<Arg>, d: Directive)
    requires i <= j <= |f| && AllDigits(f[i..j]) && d.width >= 0 && d.width <= INT_MAX
    ensures var v := d.width * Pow10(j - i) + Val(DigitsOf(f[i..j]));
            FromWidth(f, i, args, d) == if v > INT_MAX then TooLarge else FromWidth(f, j, args, d.(width := v))
    decreases j - i
  {
    hide Val, DigitsOf, FromDot, S32;
    NoMore(f, i, d.width);
    if i < j {
      FirstDigit(f, i, j, d.width);
      hide AllDigits;
      var w := Grown(d.width, f[i]);
      OverflowExact(d.width, f[i]);
      if w <= INT_MAX {
        WidthNumber(f, i + 1, j, args, d.(width := w));
      }
    }
  }

  lemma {:induction false} PrecisionNumber(f: string, i: nat, j: nat, args: seq<Arg>, d: Directive)
    requires i <= j <= |f| && AllDigits(f[i..j]) && d.precision >= 0 && d.precision <= INT_MAX
    ensures var v := d.precision * Pow10(j - i) + Val(DigitsOf(f[i..j]));
            FromPrecision(f, i, args, d)
            == if v > INT_MAX then TooLarge else FromPrecision(f, j, args, d.(precision := v))
    decreases j - i
  {
    hide Val, DigitsOf, FromMod, S32;
    NoMore(f, i, d.precision);
    if i < j {
      FirstDigit(f, i, j, d.precision);
      hide AllDigits;
      var p := Grown(d.precision, f[i]);
      OverflowExact(d.precision, f[i]);
      if p <= INT_MAX {
        PrecisionNumber(f, i + 1, j, args, d.(precision := p));
      }
    }
  }

  lemma OverflowExact(n: int, c: char)
    requires IsDigit(c)
    ensures Overflows(n, c) <==> Grown(n, c) > INT_MAX
  {
  }

  lemma NoMore(f: string, i: nat, n: int)
    requires i <= |f|
    ensures AllDigits(f[i..i]) && n * Pow10(0) + Val(DigitsOf(f[i..i])) == n
  {
  }

  /** Moving the first digit from the text into the number. */
  lemma FirstDigit(f: string, i: nat, j: nat, n: int)
    requires i < j <= |f| && AllDigits(f[i..j]) && n >= 0
    ensures IsDigit(f[i]) && AllDigits(f[i + 1..j])
    ensures var v := n * Pow10(j - i) + Val(DigitsOf(f[i..j]));
            v == Grown(n, f[i]) * Pow10(j - i - 1) + Val(DigitsOf(f[i + 1..j])) && v >= Grown(n, f[i])
  {
    var s, t := f[i..j], f[i + 1..j];
    assert s[0] == f[i] && s[1..] == t;
    assert DigitsOf(s) == [DigitValue(f[i])] + DigitsOf(t);
    assert Pow10(j - i) == 10 * Pow10(j - i - 1);
    hide DigitsOf, Val, Pow10;
    ValConcat([DigitValue(f[i])], DigitsOf(t));
    ValOne(DigitValue(f[i]));
    Shifted(n, DigitValue(f[i]), Pow10(j - i - 1));
  }

  lemma Shifted(n: nat, c: nat, p: nat)
    requires p > 0
    ensures n * (10 * p) + c * p == (10 * n + c) * p >= 10 * n + c
  {
    MulMono(10 * n + c, 1, p);
  }

  /** The flags set by a string of flag characters, read from the left. */
  function Folded(fl: Flags, s: string): Flags
    decreases |s|
  {
    if s == "" then fl else Folded(SetFlag(fl, s[0]).GetOr(fl), s[1..])
  }

  predicate AllFlags(s: string) { forall k :: 0 <= k < |s| ==> SetFlag(NO_FLAGS, s[k]).Some? }

  lemma {:induction false} FlagsRead(f: string, i: nat, j: nat, args: seq<Arg>, d: Directive)
    requires i <= j <= |f| && AllFlags(f[i..j]) && SetFlag(NO_FLAGS, CharAt(f, j)).None?
    ensures FromFlags(f, i, args, d) == FromWidth(f, j, args, d.(flags := Folded(d.flags, f[i..j])))
    decreases j - i
  {
    hide FromWidth;
    if i < j {
      assert f[i..j][0] == f[i] && f[i..j][1..] == f[i + 1..j];
      FlagsRead(f, i + 1, j, args, d.(flags := SetFlag(d.flags, f[i]).value));
    } else {
      assert f[i..j] == "";
    }
  }

  lemma {:induction false} FoldedConcat(fl: Flags, a: string, b: string)
    ensures Folded(fl, a + b) == Folded(Folded(fl, a), b)
    decreases |a|
  {
    if a == "" {
      assert a + b == b;
    } else {
      assert (a + b)[1..] == a[1..] + b;
      FoldedConcat(SetFlag(fl, a[0]).GetOr(fl), a[1..], b);
    }
  }

  /** The text of a directive, up to its conversion character. */
  function FlagText(fl: Flags): string
  {
    Flag(fl.minus, '-')
    + (Flag(fl.plus, '+') + (Flag(fl.space, ' ') + (Flag(fl.num, '#') + (Flag(fl.zero, '0') + Flag(fl.quote, '\'')))))
  }

  function Flag(on: bool, c: char): string { if on then [c] else "" }

  function NumberText(n: nat): string { Chars(CanonDigits(n, 0)) }

  function ModText(m: Mod): string
  {
    match m
    case NoMod => ""
    case CharMod => "hh"
    case ShortMod => "h"
    case LlongMod => "ll"
    case LongMod => "l"
    case LdoubleMod => "L"
    case IntmaxMod => "j"
    case PtrdiffMod => "t"
    case SizeMod => "z"
  }

  function WidthText(w: int): string { if w <= 0 then "" else NumberText(w) }

  function PrecisionText(p: int): string { if p < 0 then "" else "." + NumberText(p) }

  function DirectiveText(d: Directive): string
  { FlagText(d.flags) + WidthText(d.width) + PrecisionText(d.precision) + ModText(d.mod) }

  predicate Writable(d: Directive)
  {
    !d.flags.up && !d.flags.unsigned && 0 <= d.width <= INT_MAX && -1 <= d.precision <= INT_MAX
  }

  /** The characters that end a directive. */
  predicate IsConversion(c: char)
  {
    c in {'d', 'i', 'X', 'x', 'o', 'u', 'A', 'F', 'a', 'f', 'E', 'e', 'G', 'g', 'c', 's', 'p', 'n', '%'}
  }

  lemma FlagTextFlags(fl: Flags)
    ensures AllFlags(FlagText(fl))
  {
    hide AllFlags;
    OneFlag('-');
    OneFlag('+');
    OneFlag(' ');
    OneFlag('#');
    OneFlag('0');
    OneFlag('\'');
    hide Flag;
    var t4 := Flag(fl.zero, '0') + Flag(fl.quote, '\'');
    var t3 := Flag(fl.num, '#') + t4;
    var t2 := Flag(fl.space, ' ') + t3;
    var t1 := Flag(fl.plus, '+') + t2;
    MoreFlags(Flag(fl.zero, '0'), Flag(fl.quote, '\''));
    MoreFlags(Flag(fl.num, '#'), t4);
    MoreFlags(Flag(fl.space, ' '), t3);
    MoreFlags(Flag(fl.plus, '+'), t2);
    MoreFlags(Flag(fl.minus, '-'), t1);
  }

  lemma OneFlag(c: char)
    requires SetFlag(NO_FLAGS, c).Some?
    ensures AllFlags(Flag(true, c)) && AllFlags(Flag(false, c))
  {
  }

  lemma MoreFlags(a: string, b: string)
    requires AllFlags(a) && AllFlags(b)
    ensures AllFlags(a + b)
  {
    hide SetFlag;
  }

  lemma FoldedFlag(fl: Flags, on: bool, c: char)
    requires SetFlag(fl, c).Some?
    ensures Folded(fl, Flag(on, c)) == if on then SetFlag(fl, c).value else fl
  {
  }

  lemma FlagTextFolds(fl: Flags)
    requires !fl.up && !fl.unsigned
    ensures Folded(NO_FLAGS, FlagText(fl)) == fl
  {
    hide Folded, Flag;
    var t5 := Flag(fl.quote, '\'');
    var t4 := Flag(fl.zero, '0') + t5;
    var t3 := Flag(fl.num, '#') + t4;
    var t2 := Flag(fl.space, ' ') + t3;
    var t1 := Flag(fl.plus, '+') + t2;
    var f0 := NO_FLAGS.(minus := fl.minus);
    var f1 := f0.(plus := fl.plus);
    var f2 := f1.(space := fl.space);
    var f3 := f2.(num := fl.num);
    var f4 := f3.(zero := fl.zero);
    FoldedConcat(NO_FLAGS, Flag(fl.minus, '-'), t1);
    FoldedFlag(NO_FLAGS, fl.minus, '-');
    FoldedConcat(f0, Flag(fl.plus, '+'), t2);
    FoldedFlag(f0, fl.plus, '+');
    FoldedConcat(f1, Flag(fl.space, ' '), t3);
    FoldedFlag(f1, fl.space, ' ');
    FoldedConcat(f2, Flag(fl.num, '#'), t4);
    FoldedFlag(f2, fl.num, '#');
    FoldedConcat(f3, Flag(fl.zero, '0'), t5);
    FoldedFlag(f3, fl.zero, '0');
    FoldedFlag(f4, fl.quote, '\'');
  }

  lemma NumberTextDigits(n: nat)
    ensures AllDigits(NumberText(n)) && DigitsOf(NumberText(n)) == CanonDigits(n, 0)
    ensures Val(DigitsOf(NumberText(n))) == n
    ensures NumberText(n) != "" && (n > 0 ==> NumberText(n)[0] != '0')
  {
    hide CanonDigits, Val, DigitsOf;
    CanonDigitsCorrect(n, 0);
    var ds := CanonDigits(n, 0);
    DigitsOfChars(ds);
    if |ds| == 1 {
      assert ds == [ds[0]];
      ValOne(ds[0]);
    }
  }

  /** Not a flag, a digit, a star or a point. */
  predicate Quiet(c: char) { SetFlag(NO_FLAGS, c).None? && !IsDigit(c) && c != '*' && c != '.' }

  /** The four parts of the text, and what the characters after them are not. */
  predicate Parts(f: string, i: nat, a: nat, b: nat, c: nat, e: nat, d: Directive)
  {
    && i <= a <= b <= c <= e < |f| && IsConversion(f[e])
    && f[i..a] == FlagText(d.flags) && f[a..b] == WidthText(d.width)
    && f[b..c] == PrecisionText(d.precision) && f[c..e] == ModText(d.mod)
  }

  lemma TextParts(f: string, i: nat, d: Directive)
    requires i + |DirectiveText(d)| < |f| && f[i..i + |DirectiveText(d)|] == DirectiveText(d)
    requires IsConversion(f[i + |DirectiveText(d)|])
    ensures var a := i + |FlagText(d.flags)|;
            var b := a + |WidthText(d.width)|;
            var c := b + |PrecisionText(d.precision)|;
            c + |ModText(d.mod)| == i + |DirectiveText(d)| && Parts(f, i, a, b, c, i + |DirectiveText(d)|, d)
  {
    hide FlagText, WidthText, PrecisionText, ModText, IsConversion;
    Pieces4(f, i, FlagText(d.flags), WidthText(d.width), PrecisionText(d.precision), ModText(d.mod));
  }

  lemma Pieces4(f: string, i: nat, s: string, t: string, u: string, v: string)
    requires i + |s + t + u + v| <= |f| && f[i..i + |s + t + u + v|] == s + t + u + v
    ensures var a, b, c := i + |s|, i + |s| + |t|, i + |s| + |t| + |u|;
            f[i..a] == s && f[a..b] == t && f[b..c] == u && f[c..c + |v|] == v
  {
    Pieces2(f, i, s + t + u, v);
    Pieces2(f, i, s + t, u);
    Pieces2(f, i, s, t);
  }

  lemma Pieces2(f: string, i: nat, s: string, t: string)
    requires i + |s + t| <= |f| && f[i..i + |s + t|] == s + t
    ensures f[i..i + |s|] == s && f[i + |s|..i + |s + t|] == t
  {
    var w, m := s + t, i + |s|;
    forall k | 0 <= k < |s|
      ensures f[i..m][k] == s[k]
    {
      assert f[i..i + |w|][k] == w[k];
    }
    forall k | 0 <= k < |t|
      ensures f[m..i + |w|][k] == t[k]
    {
      assert f[i..i + |w|][|s| + k] == w[|s| + k];
    }
  }

  lemma QuietMod(f: string, i: nat, a: nat, b: nat, c: nat, e: nat, d: Directive)
    requires Parts(f, i, a, b, c, e, d)
    ensures Quiet(CharAt(f, c))
  {
    hide FlagText, WidthText, PrecisionText;
    if c < e {
      assert f[c] == f[c..e][0];
    }
  }

  lemma QuietPrecision(f: string, i: nat, a: nat, b: nat, c: nat, e: nat, d: Directive)
    requires Parts(f, i, a, b, c, e, d)
    ensures CharAt(f, b) == '.' || (b == c && Quiet(CharAt(f, b)))
  {
    QuietMod(f, i, a, b, c, e, d);
    hide FlagText, WidthText, ModText, Quiet, IsConversion, NumberText;
    if b < c {
      assert f[b] == f[b..c][0];
    }
  }

  lemma QuietWidth(f: string, i: nat, a: nat, b: nat, c: nat, e: nat, d: Directive)
    requires Parts(f, i, a, b, c, e, d)
    ensures SetFlag(NO_FLAGS, CharAt(f, a)).None?
  {
    hide FlagText, PrecisionText, ModText, IsConversion, NumberText, SetFlag, Quiet, IsDigit;
    QuietPrecision(f, i, a, b, c, e, d);
    if a < b {
      NumberTextStart(d.width);
      assert f[a] == f[a..b][0];
    }
    NoFlag(CharAt(f, a));
  }

  lemma NoFlag(c: char)
    requires c == '.' || Quiet(c) || (IsDigit(c) && c != '0')
    ensures SetFlag(NO_FLAGS, c).None?
  {
  }

  lemma NumberTextStart(n: nat)
    requires n > 0
    ensures var t := NumberText(n); t != "" && IsDigit(t[0]) && t[0] != '0'
  {
    hide NumberText, IsDigit;
    NumberTextDigits(n);
  }

  lemma FlagsPart(f: string, i: nat, a: nat, args: seq<Arg>, fl: Flags)
    requires i <= a <= |f| && f[i..a] == FlagText(fl) && SetFlag(NO_FLAGS, CharAt(f, a)).None? && !fl.up && !fl.unsigned
    ensures FromFlags(f, i, args, NO_DIRECTIVE) == FromWidth(f, a, args, NO_DIRECTIVE.(flags := fl))
  {
    hide FromFlags, FromWidth, Folded, FlagText, AllFlags;
    FlagTextFlags(fl);
    FlagsRead(f, i, a, args, NO_DIRECTIVE);
    FlagTextFolds(fl);
  }

  lemma WidthPart(f: string, a: nat, b: nat, args: seq<Arg>, d: Directive, w: int)
    requires a <= b <= |f| && f[a..b] == WidthText(w) && 0 <= w <= INT_MAX && d.width == 0
    requires !IsDigit(CharAt(f, b)) && CharAt(f, b) != '*'
    ensures FromWidth(f, a, args, d) == FromDot(f, b, args, d.(width := w))
  {
    hide FromDot, Val, DigitsOf, S32, Pow10, NumberText;
    if w > 0 {
      NumberTextDigits(w);
      WidthNumber(f, a, b, args, d);
    }
  }

  lemma PrecisionPart(f: string, b: nat, c: nat, args: seq<Arg>, d: Directive, p: int)
    requires b <= c <= |f| && f[b..c] == PrecisionText(p) && -1 <= p <= INT_MAX && d.precision == -1
    requires !IsDigit(CharAt(f, c)) && CharAt(f, c) != '*' && CharAt(f, c) != '.'
    ensures FromDot(f, b, args, d) == FromMod(f, c, args, d.(precision := p))
  {
    hide FromMod, Val, DigitsOf, S32, Pow10, NumberText;
    if p >= 0 {
      assert f[b] == f[b..c][0] && f[b + 1..c] == f[b..c][1..] == NumberText(p);
      NumberTextDigits(p);
      PrecisionNumber(f, b + 1, c, args, d.(precision := 0));
    }
  }

  lemma ModPart(f: string, c: nat, e: nat, args: seq<Arg>, d: Directive, m: Mod)
    requires c <= e < |f| && f[c..e] == ModText(m) && IsConversion(f[e]) && d.mod == NoMod
    ensures FromMod(f, c, args, d) == Item(d.(mod := m), e, args)
  {
    if c < e {
      assert f[c] == f[c..e][0];
    }
    if c + 1 < e {
      assert f[c + 1] == f[c..e][1];
    }
  }

  /** Every directive is read back from its text, wherever it stands. */
  lemma DirectiveReadBack(f: string, i: nat, args: seq<Arg>, d: Directive)
    requires Writable(d) && i + |DirectiveText(d)| < |f|
    requires f[i..i + |DirectiveText(d)|] == DirectiveText(d) && IsConversion(f[i + |DirectiveText(d)|])
    ensures FromFlags(f, i, args, NO_DIRECTIVE) == Item(d, i + |DirectiveText(d)|, args)
  {
    hide FlagText, WidthText, PrecisionText, ModText, DirectiveText, FromFlags, FromWidth, FromDot, FromMod;
    hide IsConversion, SetFlag;
    var a := i + |FlagText(d.flags)|;
    var b := a + |WidthText(d.width)|;
    var c := b + |PrecisionText(d.precision)|;
    var e := i + |DirectiveText(d)|;
    TextParts(f, i, d);
    QuietMod(f, i, a, b, c, e, d);
    QuietPrecision(f, i, a, b, c, e, d);
    QuietWidth(f, i, a, b, c, e, d);
    FlagsPart(f, i, a, args, d.flags);
    WidthPart(f, a, b, args, NO_DIRECTIVE.(flags := d.flags), d.width);
    PrecisionPart(f, b, c, args, Directive(d.flags, d.width, -1, NoMod), d.precision);
    ModPart(f, c, e, args, d.(mod := NoMod), d.mod);
  }

  // --------------------------------------------------------------- conversions

  function S8(x: int): int { if x % 256 >= 128 then x % 256 - 256 else x % 256 }

  function S16(x: int): int { if x % 65536 >= 32768 then x % 65536 - 65536 else x % 65536 }

  function SignedArg(word: int, mod: Mod): int
  {
    match mod
    case CharMod => S8(word)
    case ShortMod => S16(word)
    case NoMod | LdoubleMod => S32(word)
    case _ => S64(word)
  }

  /** An unsigned argument, held in a signed 64-bit variable. */
  function UnsignedArg(word: int, mod: Mod): int
  {
    match mod
    case CharMod => word % 256
    case ShortMod => word % 65536
    case NoMod | LdoubleMod => U32(word)
    case _ => S64(word)
  }

  /** What one conversion emits, whether it takes an argument, what it stores, and
      whether it fails. */
  datatype Effect = Effect(text: string, takes: bool, stored: seq<int>, failed: bool)

  function Emit(text: string): Effect { Effect(text, true, [], false) }

  function EffectOf(c: char, d: Directive, a: Arg, len: nat, sep: string): Effect
  {
    var fl := d.flags.(unsigned := true);
    match c
    case 'd' | 'i' => Emit(IntText(SignedArg(a.word, d.mod), 10, d.width, d.precision, d.flags, sep))
    case 'X' => Emit(IntText(UnsignedArg(a.word, d.mod), 16, d.width, d.precision, fl.(up := true), sep))
    case 'x' => Emit(IntText(UnsignedArg(a.word, d.mod), 16, d.width, d.precision, fl, sep))
    case 'o' => Emit(IntText(UnsignedArg(a.word, d.mod), 8, d.width, d.precision, fl, sep))
    case 'u' => Emit(IntText(UnsignedArg(a.word, d.mod), 10, d.width, d.precision, fl, sep))
    case 'A' | 'F' | 'a' | 'f' | 'E' | 'e' | 'G' | 'g' => Effect(a.float, true, [], a.tooLarge)
    case 'c' => Emit([(a.word % 256) as char])
    case 's' => Emit(StrText(a.text, d.width, d.precision, d.flags))
    case 'p' =>
      if U64(a.word) == 0 then Emit(StrText(Some("(nil)"), d.width, -1, d.flags))
      else Emit(IntText(S64(a.word), 16, d.width, d.precision, fl.(num := true), sep))
    case 'n' => Effect("", true, [SignedArg(len, d.mod)], false)
    case '%' => Effect("%", false, [], false)
    case _ => Effect("", false, [], false)
  }

  /** What a format produces: characters, the counts stored by %n, and whether a
      number in it was too large.  No buffer size occurs here. */
  datatype Output = Output(text: string, stored: seq<int>, overflow: bool)

  function Prepend(text: string, stored: seq<int>, o: Output): Output
  { o.(text := text + o.text, stored := stored + o.stored) }

  const NOTHING := Output("", [], false)

  function Formatted(f: string, i: nat, args: seq<Arg>, len: nat, sep: string): Output
    requires i <= |f|
    decreases |f| - i, 1
  {
    var c := CharAt(f, i);
    if c == '\0' then NOTHING
    else if c != '%' then Prepend([c], [], Formatted(f, i + 1, args, len + 1, sep))
    else
      Converted(f, FromFlags(f, i + 1, args, NO_DIRECTIVE), len, sep)
  }

  function Converted(f: string, item: Item, len: nat, sep: string): Output
    requires item.Item? ==> item.next <= |f|
    decreases if item.Item? then |f| - item.next else 0, 0
  {
    if item.TooLarge? then NOTHING.(overflow := true)
    else if CharAt(f, item.next) == '\0' then NOTHING
    else
      var e := EffectOf(CharAt(f, item.next), item.d, First(item.args), len, sep);
      if e.failed then Output(e.text, e.stored, true)
      else
        var rest := Formatted(f, item.next + 1, if e.takes then Others(item.args) else item.args, len + |e.text|, sep);
        Prepend(e.text, e.stored, rest)
  }

  // ---------------------------------------------------------- the bounded buffer

  /** The first size - 1 characters of the text, a NUL, and the rest as before. */
  function Bounded(text: string, size: nat, before: seq<char>): (s: seq<char>)
    requires size <= |before|
    ensures |s| == |before|
  {
    if size == 0 then before
    else
      var k := if |text| < size then |text| else size - 1;
      text[..k] + ['\0'] + before[k + 1..]
  }

  /** str, size and len.  The ghost fields record all characters so far and what the
      buffer held at first. */
  class Sink {
    const str: array<char>
    const size: nat
    const sep: string
    var len: nat
    ghost var text: string
    ghost const before: seq<char>

    ghost predicate Valid()
      reads this, str
    {
      && size <= str.Length == |before| && len == |text|
      && forall i :: 0 <= i < str.Length ==> str[i] == if i < len && i + 1 < size then text[i] else before[i]
    }

    constructor (str: array<char>, size: nat, sep: string)
      requires size <= str.Length
      ensures Valid() && text == "" && this.str == str && this.size == size && this.sep == sep && before == str[..]
    {
      this.str, this.size, this.sep := str, size, sep;
      len, text, before := 0, "", str[..];
    }

    lemma Counted()
      requires Valid()
      ensures len == |text|
    {
    }

    /** OUTCHAR */
    method OutChar(ch: char)
      requires Valid()
      modifies this, str
      ensures Valid() && text == old(text) + [ch]
    {
      if len + 1 < size {
        str[len] := ch;
      }
      len := len + 1;
      text := text + [ch];
    }

    /** The end of the function: a NUL after the text or in the last place. */
    method Terminate()
      requires Valid()
      modifies str
      ensures str[..] == Bounded(text, size, before)
    {
      if len < size {
        str[len] := '\0';
      } else if size > 0 {
        str[size - 1] := '\0';
      }
    }

    method OutCopies(ch: char, n: int)
      requires Valid()
      modifies this, str
      ensures Valid() && text == old(text) + Repeat(ch, n)
    {
      var left := n;
      while left > 0
        invariant Valid() && (if n > 0 then 0 <= left <= n else left == n)
        invariant text == old(text) + Repeat(ch, n - left)
      {
        OutChar(ch);
        left := left - 1;
      }
    }

    method OutString(s: string)
      requires Valid()
      modifies this, str
      ensures Valid() && text == old(text) + s
    {
      var i := 0;
      while i < |s|
        invariant Valid() && i <= |s| && text == old(text) + s[..i]
      {
        OutChar(s[i]);
        i := i + 1;
      }
    }

    method FmtStr(value: Option<string>, width: int, precision: int, flags: Flags)
      requires Valid()
      modifies this, str
      ensures Valid() && text == old(text) + StrText(value, width, precision, flags)
    {
      hide Valid, Repeat, StrLen, StrText;
      var s := if value.Some? then value.value else "(null)";
      var strln := Measure(s, precision);
      var padlen := width - strln;
      ghost var start := text;
      StrPieces(start, value, width, precision, flags);
      if padlen < 0 {
        padlen := 0;
      }
      if flags.minus {
        padlen := -padlen;
      }
      OutCopies(' ', padlen);
      OutPrefix(s, precision);
      OutCopies(' ', -padlen);
    }

    method OutPrefix(s: string, precision: int)
      requires Valid()
      modifies this, str
      ensures Valid() && text == old(text) + s[..StrLen(s, 0, precision)]
    {
      hide Valid;
      var i, left := 0, precision;
      while CharAt(s, i) != '\0' && (precision == -1 || left > 0)
        invariant Valid() && i <= |s| && left == precision - i && text == old(text) + s[..i]
        invariant StrLen(s, i, precision) == StrLen(s, 0, precision)
        decreases |s| - i
      {
        OutChar(s[i]);
        i := i + 1;
        left := left - 1;
      }
    }

    method FmtInt(value: int, base: Base, width: int, precision: int, flags: Flags)
      requires Valid()
      modifies this, str
      ensures Valid() && text == old(text) + IntText(value, base, width, precision, flags, sep)
    {
      hide Valid, RevDigits, HexChars, Grouped, U64, Layout, SignText, PrefixText, OctalPrecision, Separators;
      var uvalue := if flags.unsigned then U64(value) else U64(if value >= 0 then value else -value);
      var sign := SignText(value, flags);
      var rev := Convert(uvalue, 43, base, flags.up);
      var pos := |rev|;
      var prefix := PrefixText(uvalue, base, flags);
      var digits := OctalPrecision(uvalue, base, flags, precision, pos);
      var separators := Separators(flags, pos, sep);
      SomeSeparators(flags, pos, sep);
      var zpadlen := digits - pos - separators;
      var spadlen := width - separators - Max(digits, pos) - |sign| - |prefix|;
      if zpadlen < 0 {
        zpadlen := 0;
      }
      if spadlen < 0 {
        spadlen := 0;
      }
      OutLayout(sign, prefix, rev, separators, zpadlen, spadlen, flags, precision == -1);
    }

    /** Padding, sign, prefix, zeros and digits in the order asked for. */
    method OutLayout(sign: string, prefix: string, rev: string, separators: int, zpad: int, spad: int,
                     flags: Flags, noprecision: bool)
      requires Valid() && zpad >= 0 && spad >= 0
      requires (separators > 0 ==> flags.quote) && (flags.quote && sep != "" && |rev| > 3 ==> separators > 0)
      modifies this, str
      ensures var digits := Grouped(rev, |rev|, if flags.quote then sep else "");
              Valid() && text == old(text) + Layout(sign + prefix, digits, zpad, spad, flags, noprecision)
    {
      hide Valid, Repeat, Grouped, Layout;
      var spadlen, zpadlen := spad, zpad;
      if flags.minus {
        spadlen := -spadlen;
      } else if flags.zero && noprecision {
        zpadlen := zpadlen + spadlen;
        spadlen := 0;
      }
      ghost var start := text;
      ghost var digits := Grouped(rev, |rev|, if flags.quote then sep else "");
      OutCopies(' ', spadlen);
      OutString(sign);
      OutString(prefix);
      OutCopies('0', zpadlen);
      OutDigits(rev, flags.quote, separators);
      OutCopies(' ', -spadlen);
      Pieces(start, sign, prefix, digits, zpad, spad, flags, noprecision);
    }

    /** The switch on the conversion character. */
    method Conversion(c: char, d: Directive, a: Arg) returns (takes: bool, stored: seq<int>, failed: bool)
      requires Valid()
      modifies this, str
      ensures Valid() && old(text) <= text
      ensures EffectOf(c, d, a, old(len), sep) == Effect(text[|old(text)|..], takes, stored, failed)
    {
      hide Valid, IntText, StrText, SignedArg, UnsignedArg, S64, U64;
      takes, stored, failed := true, [], false;
      var fl := d.flags.(unsigned := true);
      match c
      case 'd' | 'i' => FmtInt(SignedArg(a.word, d.mod), 10, d.width, d.precision, d.flags);
      case 'X' => FmtInt(UnsignedArg(a.word, d.mod), 16, d.width, d.precision, fl.(up := true));
      case 'x' => FmtInt(UnsignedArg(a.word, d.mod), 16, d.width, d.precision, fl);
      case 'o' => FmtInt(UnsignedArg(a.word, d.mod), 8, d.width, d.precision, fl);
      case 'u' => FmtInt(UnsignedArg(a.word, d.mod), 10, d.width, d.precision, fl);
      case 'A' | 'F' | 'a' | 'f' | 'E' | 'e' | 'G' | 'g' =>
        OutString(a.float);
        failed := a.tooLarge;
      case 'c' => OutChar((a.word % 256) as char);
      case 's' => FmtStr(a.text, d.width, d.precision, d.flags);
      case 'p' =>
        if U64(a.word) == 0 {
          FmtStr(Some("(nil)"), d.width, -1, d.flags);
        } else {
          FmtInt(S64(a.word), 16, d.width, d.precision, fl.(num := true));
        }
      case 'n' => stored := [SignedArg(len, d.mod)];
      case '%' =>
        OutChar(c);
        takes := false;
      case _ => takes := false;
    }

    method OutDigits(rev: string, quote: bool, separators: int)
      requires Valid() && (separators > 0 ==> quote) && (quote && sep != "" && |rev| > 3 ==> separators > 0)
      modifies this, str
      ensures Valid() && text == old(text) + Grouped(rev, |rev|, if quote then sep else "")
    {
      hide Valid, Grouped;
      var pos: nat := |rev|;
      ghost var s := if quote then sep else "";
      while pos > 0
        invariant Valid() && 0 <= pos <= |rev|
        invariant old(text) + Grouped(rev, |rev|, s) == text + Grouped(rev, pos, s)
      {
        GroupedStep(text, rev, pos, s);
        pos := pos - 1;
        OutChar(rev[pos]);
        if separators > 0 && pos > 0 && pos % 3 == 0 {
          OutString(sep);
        }
      }
      GroupedStep(text, rev, 0, s);
    }
  }

  lemma GroupedStep(before: string, rev: string, n: nat, sep: string)
    requires n <= |rev|
    ensures n == 0 ==> before + Grouped(rev, n, sep) == before
    ensures n > 0 ==>
              var more := if n > 1 && (n - 1) % 3 == 0 then sep else "";
              && before + Grouped(rev, n, sep) == before + [rev[n - 1]] + more + Grouped(rev, n - 1, sep)
              && (more == "" ==> before + [rev[n - 1]] + more == before + [rev[n - 1]])
  {
  }

  method Measure(s: string, precision: int) returns (strln: nat)
    ensures strln == StrLen(s, 0, precision)
  {
    strln := 0;
    while CharAt(s, strln) != '\0' && (precision == -1 || strln < precision)
      invariant strln <= |s| && StrLen(s, 0, precision) == StrLen(s, strln, precision)
      decreases |s| - strln
    {
      strln := strln + 1;
    }
  }

  lemma StrPieces(start: string, value: Option<string>, width: int, precision: int, fl: Flags)
    ensures var s := if value.Some? then value.value else "(null)";
            var t := s[..StrLen(s, 0, precision)];
            var pad := Max(width - |t|, 0);
            var lead, trail := if fl.minus then -pad else pad, if fl.minus then pad else -pad;
            start + StrText(value, width, precision, fl) == start + Repeat(' ', lead) + t + Repeat(' ', trail)
  {
    hide Repeat, StrLen;
    var s := if value.Some? then value.value else "(null)";
    NoCopies(' ');
    Clamp(' ', width - StrLen(s, 0, precision));
  }

  lemma NoCopies(c: char)
    ensures forall n :: n <= 0 ==> Repeat(c, n) == ""
  {
  }

  lemma Pieces(start: string, sign: string, prefix: string, digits: string, zpad: int, spad: int,
               fl: Flags, noprecision: bool)
    requires zpad >= 0 && spad >= 0
    ensures var z := !fl.minus && fl.zero && noprecision;
            var lead, zeros := if fl.minus then -spad else if z then 0 else spad, if z then zpad + spad else zpad;
            start + Repeat(' ', lead) + sign + prefix + Repeat('0', zeros) + digits + Repeat(' ', -lead)
            == start + Layout(sign + prefix, digits, zpad, spad, fl, noprecision)
  {
    hide Repeat;
    NoCopies(' ');
  }

  lemma SomeSeparators(fl: Flags, pos: nat, sep: string)
    ensures Separators(fl, pos, sep) > 0 ==> fl.quote
    ensures fl.quote && pos > 3 && sep != "" ==> Separators(fl, pos, sep) > 0
  {
    var n := (pos - (if pos % 3 == 0 then 1 else 0)) / 3;
    if pos > 3 && sep != "" {
      assert n >= 1;
      MulMono(|sep|, 1, n);
    }
  }

  // ----------------------------------------------------------- the state machine

  datatype State = InDefault | InFlags | InWidth | InDot | InPrecision | InMod | InConv

  datatype Config = Config(state: State, i: nat, args: seq<Arg>, d: Directive)

  /** What the rest of the format produces from a configuration. */
  function Pending(f: string, c: Config, len: nat, sep: string): Output
    requires c.i <= |f|
  {
    if c.state == InDefault then Formatted(f, c.i, c.args, len, sep) else Converted(f, ItemOf(f, c), len, sep)
  }

  /** The directive that is being read. */
  function ItemOf(f: string, c: Config): (r: Item)
    requires c.i <= |f|
    ensures r.Item? ==> r.next <= |f|
  {
    match c.state
    case InFlags => FromFlags(f, c.i, c.args, c.d)
    case InWidth => FromWidth(f, c.i, c.args, c.d)
    case InDot => FromDot(f, c.i, c.args, c.d)
    case InPrecision => FromPrecision(f, c.i, c.args, c.d)
    case InMod => FromMod(f, c.i, c.args, c.d)
    case InDefault | InConv => Item(c.d, c.i, c.args)
  }

  function Rank(st: State): nat
  {
    match st
    case InDefault => 0
    case InFlags => 6
    case InWidth => 5
    case InDot => 4
    case InPrecision => 3
    case InMod => 2
    case InConv => 1
  }

  predicate Ready(f: string, c: Config) { c.i <= |f| && (c.state == InDefault ==> c.d == NO_DIRECTIVE) }

  /** One step inside a directive; None when a number is too large. */
  method Scan(f: string, c: Config) returns (n: Option<Config>)
    requires Ready(f, c) && CharAt(f, c.i) != '\0' && c.state != InDefault && c.state != InConv
    ensures n.None? ==> ItemOf(f, c) == TooLarge
    ensures n.Some? ==> Ready(f, n.value) && n.value.state != InDefault
                        && (n.value.i > c.i || (n.value.i == c.i && Rank(n.value.state) < Rank(c.state)))
    ensures n.Some? ==> ItemOf(f, n.value) == ItemOf(f, c)
  {
    hide S32;
    var ch, d := CharAt(f, c.i), c.d;
    match c.state
    case InFlags =>
      var fl := SetFlag(d.flags, ch);
      if fl.Some? {
        n := Some(c.(i := c.i + 1, d := d.(flags := fl.value)));
      } else {
        n := Some(c.(state := InWidth));
      }
    case InWidth =>
      if IsDigit(ch) {
        if Overflows(d.width, ch) {
          return None;
        }
        n := Some(c.(i := c.i + 1, d := d.(width := Grown(d.width, ch))));
      } else if ch == '*' {
        n := Some(Config(InDot, c.i + 1, Others(c.args), StarWidth(d, S32(First(c.args).word))));
      } else {
        n := Some(c.(state := InDot));
      }
    case InDot =>
      n := Some(if ch == '.' then c.(state := InPrecision, i := c.i + 1) else c.(state := InMod));
    case InPrecision =>
      d := Begun(d);
      if IsDigit(ch) {
        if Overflows(d.precision, ch) {
          return None;
        }
        n := Some(c.(i := c.i + 1, d := d.(precision := Grown(d.precision, ch))));
      } else if ch == '*' {
        var p := S32(First(c.args).word);
        n := Some(Config(InMod, c.i + 1, Others(c.args), d.(precision := if p < 0 then -1 else p)));
      } else {
        n := Some(c.(state := InMod, d := d));
      }
    case InMod =>
      var item := FromMod(f, c.i, c.args, d);
      n := Some(Config(InConv, item.next, item.args, item.d));
  }

  /** What was emitted and stored since, and what is still to come. */
  ghost predicate Accounts(whole: Output, text: string, stored: seq<int>, overflow: bool, rest: Output)
  {
    whole == if overflow then Output(text, stored, true) else Prepend(text, stored, rest)
  }

  lemma AccountsChain(whole: Output, text: string, stored: seq<int>, mid: Output,
                      t2: string, s2: seq<int>, overflow: bool, rest: Output)
    requires Accounts(whole, text, stored, false, mid) && Accounts(mid, t2, s2, overflow, rest)
    ensures Accounts(whole, text + t2, stored + s2, overflow, rest)
  {
    assert text + (t2 + rest.text) == text + t2 + rest.text;
    assert stored + (s2 + rest.stored) == stored + s2 + rest.stored;
  }

  lemma AccountsStart(f: string, args: seq<Arg>, sep: string)
    ensures var c := Config(InDefault, 0, args, NO_DIRECTIVE);
            Ready(f, c) && Accounts(Formatted(f, 0, args, 0, sep), "", [], false, Pending(f, c, 0, sep))
  {
    hide Formatted;
    NothingAdded(Formatted(f, 0, args, 0, sep));
  }

  lemma AccountsEnd(whole: Output, text: string, stored: seq<int>, overflow: bool, rest: Output)
    requires Accounts(whole, text, stored, overflow, rest) && (!overflow ==> rest == NOTHING)
    ensures whole == Output(text, stored, overflow)
  {
    assert text + "" == text && stored + [] == stored;
  }

  /** One turn of the loop. */
  method Step(sink: Sink, f: string, c: Config) returns (n: Config, stored: seq<int>, overflow: bool)
    requires sink.Valid() && Ready(f, c) && CharAt(f, c.i) != '\0'
    modifies sink, sink.str
    ensures sink.Valid() && old(sink.text) <= sink.text && Ready(f, n)
    ensures var added := sink.text[|old(sink.text)|..];
            Accounts(Pending(f, c, old(sink.len), sink.sep), added, stored, overflow, Pending(f, n, sink.len, sink.sep))
    ensures overflow || n.i > c.i || (n.i == c.i && Rank(n.state) < Rank(c.state))
  {
    hide Pending, Accounts, EffectOf, ItemOf, sink.Valid;
    n, stored, overflow := c, [], false;
    sink.Counted();
    assert sink.text[|sink.text|..] == "";
    if c.state == InDefault {
      PlainStep(f, c, sink.len, sink.sep);
      if CharAt(f, c.i) == '%' {
        n := c.(state := InFlags, i := c.i + 1);
      } else {
        sink.OutChar(f[c.i]);
        n := c.(i := c.i + 1);
      }
    } else if c.state == InConv {
      ConversionStep(f, c, sink.len, sink.sep);
      var takes;
      takes, stored, overflow := sink.Conversion(CharAt(f, c.i), c.d, First(c.args));
      n := Config(InDefault, c.i + 1, if takes then Others(c.args) else c.args, NO_DIRECTIVE);
    } else {
      var r := Scan(f, c);
      ScanStep(f, c, r, sink.len, sink.sep);
      if r.None? {
        overflow := true;
      } else {
        n := r.value;
      }
    }
    sink.Counted();
  }

  /** A character outside of directives. */
  lemma PlainStep(f: string, c: Config, len: nat, sep: string)
    requires Ready(f, c) && c.state == InDefault && CharAt(f, c.i) != '\0'
    ensures c.i < |f|
    ensures var whole, n := Pending(f, c, len, sep), c.(i := c.i + 1);
            if f[c.i] == '%' then Accounts(whole, "", [], false, Pending(f, n.(state := InFlags), len, sep))
            else Accounts(whole, [f[c.i]], [], false, Pending(f, n, len + 1, sep))
  {
    hide Converted, FromFlags;
    NothingAdded(Pending(f, c.(state := InFlags, i := c.i + 1), len, sep));
  }

  /** The character that ends a directive. */
  lemma ConversionStep(f: string, c: Config, len: nat, sep: string)
    requires Ready(f, c) && c.state == InConv && CharAt(f, c.i) != '\0'
    ensures c.i < |f|
    ensures var e := EffectOf(CharAt(f, c.i), c.d, First(c.args), len, sep);
            var n := Config(InDefault, c.i + 1, if e.takes then Others(c.args) else c.args, NO_DIRECTIVE);
            Accounts(Pending(f, c, len, sep), e.text, e.stored, e.failed, Pending(f, n, len + |e.text|, sep))
  {
    hide Formatted, EffectOf;
  }

  /** A character inside of one. */
  lemma ScanStep(f: string, c: Config, n: Option<Config>, len: nat, sep: string)
    requires Ready(f, c) && c.state != InDefault
    requires n.None? ==> ItemOf(f, c) == TooLarge
    requires n.Some? ==> Ready(f, n.value) && n.value.state != InDefault && ItemOf(f, n.value) == ItemOf(f, c)
    ensures var rest := Pending(f, if n.Some? then n.value else c, len, sep);
            Accounts(Pending(f, c, len, sep), "", [], n.None?, rest)
  {
    hide Formatted, ItemOf, EffectOf;
    NothingAdded(Pending(f, c, len, sep));
  }

  lemma NothingAdded(o: Output)
    ensures Prepend("", [], o) == o
  {
    assert "" + o.text == o.text && [] + o.stored == o.stored;
  }

  /** At the end of the format nothing more comes, in whatever state. */
  lemma PendingEnds(f: string, c: Config, len: nat, sep: string)
    requires c.i <= |f| && CharAt(f, c.i) == '\0'
    ensures Pending(f, c, len, sep) == NOTHING
  {
  }

  /** The loop over the format. */
  method Run(sink: Sink, f: string, args: seq<Arg>) returns (stored: seq<int>, overflow: bool)
    requires sink.Valid() && sink.text == ""
    modifies sink, sink.str
    ensures sink.Valid() && Formatted(f, 0, args, 0, sink.sep) == Output(sink.text, stored, overflow)
  {
    hide Formatted, Pending, Accounts, sink.Valid;
    var c := Config(InDefault, 0, args, NO_DIRECTIVE);
    stored, overflow := [], false;
    ghost var whole := Formatted(f, 0, args, 0, sink.sep);
    sink.Counted();
    AccountsStart(f, args, sink.sep);
    while CharAt(f, c.i) != '\0' && !overflow
      invariant sink.Valid() && Ready(f, c)
      invariant Accounts(whole, sink.text, stored, overflow, Pending(f, c, sink.len, sink.sep))
      decreases !overflow, |f| - c.i, Rank(c.state)
    {
      ghost var text, stored0, mid := sink.text, stored, Pending(f, c, sink.len, sink.sep);
      var more;
      c, more, overflow := Step(sink, f, c);
      stored := stored + more;
      assert sink.text == text + sink.text[|text|..];
      AccountsChain(whole, text, stored0, mid, sink.text[|text|..], more, overflow, Pending(f, c, sink.len, sink.sep));
    }
    if !overflow {
      PendingEnds(f, c, sink.len, sink.sep);
    }
    AccountsEnd(whole, sink.text, stored, overflow, Pending(f, c, sink.len, sink.sep));
  }

  /** rpl_vsnprintf: whatever the size, the return value and the stored counts are
      those of the unbounded output; the buffer gets as much of it as fits before a
      NUL, and is otherwise left alone. */
  method Vsnprintf(str: array?<char>, size: nat, f: string, args: seq<Arg>, sep: string)
    returns (ret: int, stored: seq<int>)
    requires str != null ==> size <= str.Length
    modifies str
    ensures var o := Formatted(f, 0, args, 0, sep);
            && ret == (if o.overflow || |o.text| >= INT_MAX then -1 else |o.text|)
            && stored == o.stored
            && (str != null ==> str[..] == Bounded(o.text, size, old(str[..])))
  {
    hide Formatted, Bounded;
    var buf := new char[0];
    if str != null {
      buf := str;
    }
    var sink := new Sink(buf, if str == null then 0 else size, sep);
    var overflow;
    stored, overflow := Run(sink, f, args);
    sink.Terminate();
    ret := if overflow || sink.len >= INT_MAX then -1 else sink.len;
  }
}
