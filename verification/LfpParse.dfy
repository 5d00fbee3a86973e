/** libntp/atolfp.c and libntp/mstolfp.c: decimal text to fixed point. */
module LfpParse {
  import opened CStrings
  import opened Options
  import opened Words
  import opened Decimal

  predicate IsSpace(c: char) { c in {' ', '\t', '\n', '\r', '\U{0B}', '\U{0C}'} }

  predicate IsEnd(c: char) { c == '\0' || IsSpace(c) }

  /** First position from i on that is not a space (a digit). */
  function SkipSpaces(s: string, i: nat): (j: nat)
    ensures j >= i
    decreases |s| - i
  {
    if i < |s| && IsSpace(s[i]) then SkipSpaces(s, i + 1) else i
  }

  function SkipDigits(s: string, i: nat): (j: nat)
    ensures j >= i && (i > |s| ==> j == i) && (i <= |s| ==> j <= |s| && AllDigits(s[i..j]))
    decreases |s| - i
  {
    if i < |s| && IsDigit(s[i]) then
      var j := SkipDigits(s, i + 1);
      assert s[i..j] == [s[i]] + s[i + 1..j];
      j
    else i
  }

  /** What the accepted texts mean: a sign, integral digits, fraction digits. */
  datatype Numeral = Numeral(neg: bool, whole: seq<Digit>, fraction: seq<Digit>)

  /** [spaces][-][+][digits][.][digits][space or NUL], with a digit or a point
      after the signs.  plus says whether a plus sign is understood. */
  function Parse(s: string, plus: bool): Option<Numeral>
  {
    NumberFrom(s, NumberStart(s, plus), CharAt(s, SkipSpaces(s, 0)) == '-')
  }

  /** Where the first digit or the point is expected. */
  function NumberStart(s: string, plus: bool): nat
  {
    var a := SkipSpaces(s, 0);
    var b := if CharAt(s, a) == '-' then a + 1 else a;
    if plus && CharAt(s, b) == '+' then b + 1 else b
  }

  function NumberFrom(s: string, c: nat, neg: bool): Option<Numeral>
  {
    if CharAt(s, c) != '.' && !IsDigit(CharAt(s, c)) then None
    else
      var e := SkipDigits(s, c);
      if IsEnd(CharAt(s, e)) then Some(Numeral(neg, DigitsOf(s[c..e]), []))
      else if CharAt(s, e) != '.' then None
      else
        var f := SkipDigits(s, e + 1);
        if IsEnd(CharAt(s, f)) then Some(Numeral(neg, DigitsOf(s[c..e]), DigitsOf(s[e + 1..f]))) else None
  }

  /** n / 10^k as a 32-bit binary fraction, to nearest. */
  function BinaryFraction(n: nat, k: nat): nat
  {
    var q, r := n * TWO32 / Pow10(k), n * TWO32 % Pow10(k);
    if 2 * r > Pow10(k) then q + 1 else q
  }

  /** At most nine fraction digits are used. */
  function Used(fraction: seq<Digit>): seq<Digit> { if |fraction| > 9 then fraction[..9] else fraction }

  /** The fixed-point number of a numeral. */
  function Fixed(n: Numeral): Wide
  {
    var f := Used(n.fraction);
    var w := Wide(U32(Val(n.whole)), if f == [] then 0 else U32(BinaryFraction(Val(f), |f|)));
    if n.neg then Neg(w) else w
  }

  function FixedOption(p: Option<Numeral>): Option<Wide> { if p.Some? then Some(Fixed(p.value)) else None }

  // -------------------------------------------------------------------- atolfp

  method Atolfp(str: string) returns (r: Option<Wide>)
    ensures r == FixedOption(Parse(str, true))
  {
    hide Val, DigitsOf, Fixed, Finish, U32, U64, BinaryFraction, Pow10, IsSpace, SkipSpaces, SkipDigits, AllDigits;
    var cp, isneg := ScanSigns(str);
    if CharAt(str, cp) != '.' && !IsDigit(CharAt(str, cp)) {
      return None;
    }
    ghost var c := cp;
    var decI;
    decI, cp := ScanWhole(str, cp);
    ghost var e := cp;
    var decF, ndec := 0, 0;
    ghost var fraction: seq<Digit> := [];
    if !IsEnd(CharAt(str, cp)) {
      if CharAt(str, cp) != '.' {
        return None;
      }
      cp := cp + 1;
      decF, ndec, cp := ScanFraction(str, cp);
      if !IsEnd(CharAt(str, cp)) {
        return None;
      }
      fraction := DigitsOf(str[e + 1..cp]);
    }
    EmptyScan(str, 0);
    ValBound(Used(fraction));
    if ndec > 0 {
      decF := Divide(decF, ndec);
    }
    r := Some(Finish(decI, decF, isneg));
    FinishIsFixed(Numeral(isneg, DigitsOf(str[c..e]), fraction), decI, decF);
  }

  /** Leading spaces and signs. */
  method ScanSigns(str: string) returns (cp: nat, isneg: bool)
    ensures var a := SkipSpaces(str, 0);
            && isneg == (CharAt(str, a) == '-')
            && (var b := if isneg then a + 1 else a; cp == if CharAt(str, b) == '+' then b + 1 else b)
    ensures cp <= |str|
  {
    cp := 0;
    while IsSpace(CharAt(str, cp))
      invariant cp <= |str| && SkipSpaces(str, cp) == SkipSpaces(str, 0)
      decreases |str| - cp
    {
      cp := cp + 1;
    }
    isneg := false;
    if CharAt(str, cp) == '-' {
      cp := cp + 1;
      isneg := true;
    }
    if CharAt(str, cp) == '+' {
      cp := cp + 1;
    }
  }

  /** The digits from start to cp have been read, and v is their number. */
  ghost predicate ScannedTo(str: string, start: nat, cp: nat, v: nat)
  {
    && start <= cp <= |str| && SkipDigits(str, cp) == SkipDigits(str, start)
    && AllDigits(str[start..cp]) && Val(DigitsOf(str[start..cp])) == v
  }

  /** The integral digits, in a 64-bit word that may wrap. */
  method ScanWhole(str: string, start: nat) returns (decI: nat, cp: nat)
    requires start <= |str|
    ensures cp == SkipDigits(str, start) && decI == U64(Val(DigitsOf(str[start..cp])))
  {
    EmptyScan(str, start);
    decI, cp := 0, start;
    ghost var v: nat := 0;
    hide ScannedTo, U64;
    while CharAt(str, cp) != '\0' && IsDigit(CharAt(str, cp))
      invariant cp <= |str| && ScannedTo(str, start, cp, v) && decI == U64(v)
      decreases |str| - cp
    {
      ScanStep(str, start, cp, v);
      WrapTen(decI, v, DigitValue(str[cp]));
      v := v * 10 + DigitValue(str[cp]);
      decI := U64(U64(decI * 8) + U64(decI * 2));
      decI := U64(decI + DigitValue(str[cp]));
      cp := cp + 1;
    }
    ScanEnd(str, start, cp, v);
  }

  lemma EmptyScan(str: string, i: nat)
    requires i <= |str|
    ensures str[i..i] == "" && AllDigits("") && DigitsOf("") == [] && Val([]) == 0 && U64(0) == 0
    ensures ScannedTo(str, i, i, 0)
  {
  }

  lemma ScanStep(str: string, start: nat, cp: nat, v: nat)
    requires ScannedTo(str, start, cp, v) && cp < |str| && IsDigit(str[cp])
    ensures ScannedTo(str, start, cp + 1, v * 10 + DigitValue(str[cp]))
  {
    assert SkipDigits(str, cp + 1) == SkipDigits(str, cp);
    hide DigitsOf, Val, AllDigits, SkipDigits;
    DigitsSnoc(str[start..cp], str[cp]);
    assert str[start..cp + 1] == str[start..cp] + [str[cp]];
    ValSnoc(DigitsOf(str[start..cp]), DigitValue(str[cp]));
  }

  lemma ScanEnd(str: string, start: nat, cp: nat, v: nat)
    requires ScannedTo(str, start, cp, v) && !IsDigit(CharAt(str, cp))
    ensures cp == SkipDigits(str, start) && Val(DigitsOf(str[start..cp])) == v
  {
  }

  lemma DigitsSnoc(s: string, c: char)
    requires AllDigits(s) && IsDigit(c)
    ensures AllDigits(s + [c]) && DigitsOf(s + [c]) == DigitsOf(s) + [DigitValue(c)]
  {
  }

  lemma WrapTen(acc: nat, v: nat, d: nat)
    requires acc == U64(v)
    ensures U64(U64(U64(acc * 8) + U64(acc * 2)) + d) == U64(v * 10 + d)
  {
    var q := Turns64(v);
    hide U64;
    U64Sum(acc * 8, acc * 2);
    U64Plus(acc * 10, d);
    SameLow64(acc * 10 + d, v * 10 + d, -10 * q);
  }

  /** Up to nine fraction digits; further ones are skipped. */
  method ScanFraction(str: string, start: nat) returns (decF: nat, ndec: nat, cp: nat)
    requires start <= |str|
    ensures cp == SkipDigits(str, start)
    ensures var f := Used(DigitsOf(str[start..cp])); ndec == |f| && decF == Val(f)
  {
    decF, ndec, cp := ScanNine(str, start);
    ghost var used := cp;
    assert ndec < 9 ==> SkipDigits(str, used) == used;
    hide Val, DigitsOf, AllDigits, SkipDigits;
    cp := DigitsSkipped(str, cp);
    DigitsPrefix(str[start..cp], ndec);
    assert str[start..cp][..ndec] == str[start..used];
  }

  method ScanNine(str: string, start: nat) returns (decF: nat, ndec: nat, cp: nat)
    requires start <= |str|
    ensures ScannedTo(str, start, cp, decF) && ndec == cp - start <= 9
    ensures ndec < 9 ==> !IsDigit(CharAt(str, cp))
  {
    EmptyScan(str, start);
    decF, ndec, cp := 0, 0, start;
    hide ScannedTo, U64, Pow10;
    assert decF < Pow10(0) by { NineDigits(0); }
    while ndec < 9 && CharAt(str, cp) != '\0' && IsDigit(CharAt(str, cp))
      invariant cp <= |str| && ScannedTo(str, start, cp, decF)
      invariant ndec == cp - start <= 9 && decF < Pow10(ndec)
      decreases |str| - cp
    {
      ScanStep(str, start, cp, decF);
      FractionStep(decF, ndec, DigitValue(str[cp]));
      ndec := ndec + 1;
      decF := U64(U64(decF * 8) + U64(decF * 2));
      decF := U64(decF + DigitValue(str[cp]));
      cp := cp + 1;
    }
  }

  lemma DigitsPrefix(s: string, n: nat)
    requires n <= |s| && AllDigits(s)
    ensures AllDigits(s[..n]) && DigitsOf(s[..n]) == DigitsOf(s)[..n] && |DigitsOf(s)| == |s|
  {
  }

  lemma FractionStep(v: nat, k: nat, d: Digit)
    requires k < 9 && v < Pow10(k)
    ensures U64(U64(U64(v * 8) + U64(v * 2)) + d) == v * 10 + d < Pow10(k + 1)
  {
    assert Pow10(k + 1) == 10 * Pow10(k);
    hide Pow10, U64;
    NineDigits(k + 1);
    Wrap64(v, 0);
    WrapTen(v, v, d);
    Wrap64(v * 10 + d, 0);
  }

  lemma NineDigits(k: nat)
    requires k <= 9
    ensures Pow10(k) <= 1_000_000_000 && Pow10(0) == 1
  {
    Pow10Mono(k, 9);
    assert Pow10(4) == 10000;
    assert Pow10(9) == 1_000_000_000;
  }

  // ---------------------------------------------------------- binary division

  /** Thirty-two steps of shift and subtract, then rounding. */
  method Divide(decF: nat, ndec: nat) returns (tmp: nat)
    requires 0 < ndec <= 9 && decF < Pow10(ndec)
    ensures tmp == BinaryFraction(decF, ndec)
  {
    hide Pow10, Pow2, BitOr;
    var tenFact := Pow10(ndec);
    var rest, bit := decF, TWO31;
    tmp := 0;
    ghost var j, t := 0, 0;
    Pow2At32();
    while bit != 0
      invariant j <= 32 && bit == (if j == 32 then 0 else Pow2(31 - j)) && tmp == t * Pow2(32 - j)
      invariant decF * Pow2(j) == t * tenFact + rest && rest < tenFact
      decreases bit
    {
      DivideStep(decF, tenFact, j, t, rest, bit);
      rest := rest * 2;
      if rest >= tenFact {
        tmp := BitOr(tmp, bit);
        rest := rest - tenFact;
        t := 2 * t + 1;
      } else {
        t := 2 * t;
      }
      bit := bit / 2;
      j := j + 1;
    }
    DivModUnique(decF * TWO32, tenFact, t, rest);
    if rest * 2 > tenFact {
      tmp := tmp + 1;
    }
  }

  lemma Pow2At32()
    ensures Pow2(31) == TWO31 && Pow2(32) == TWO32 && Pow2(0) == 1
  {
    Pow2Values();
    assert Pow2(28) == 8 * Pow2(25);
    assert Pow2(30) == 4 * Pow2(28);
  }

  lemma DivideStep(n: nat, ten: nat, j: nat, t: nat, rest: nat, bit: nat)
    requires j < 32 && bit == Pow2(31 - j) && n * Pow2(j) == t * ten + rest
    ensures n * Pow2(j + 1) == 2 * t * ten + 2 * rest == (2 * t + 1) * ten + (2 * rest - ten)
    ensures t * Pow2(32 - j) == 2 * t * Pow2(31 - j)
    ensures BitOr(t * Pow2(32 - j), bit) == (2 * t + 1) * Pow2(31 - j)
    ensures bit / 2 == if j + 1 == 32 then 0 else Pow2(30 - j)
  {
    hide BitOr;
    var p := Pow2(31 - j);
    assert Pow2(32 - j) == 2 * p && Pow2(j + 1) == 2 * Pow2(j);
    assert j + 1 < 32 ==> p == 2 * Pow2(30 - j);
    hide Pow2;
    DoubleStep(n, Pow2(j), t, ten, rest);
    Doubled(t, p);
    DivModUnique(t * (2 * p), 2 * p, t, 0);
    BitOrDisjoint(t * (2 * p), p, 32 - j);
  }

  lemma Doubled(t: nat, p: nat)
    ensures t * (2 * p) == 2 * t * p == 2 * p * t && t * (2 * p) + p == (2 * t + 1) * p
  {
  }

  lemma DoubleStep(n: nat, q: nat, t: nat, ten: nat, rest: nat)
    requires n * q == t * ten + rest
    ensures n * (2 * q) == 2 * t * ten + 2 * rest == (2 * t + 1) * ten + (2 * rest - ten)
  {
    assert n * (2 * q) == 2 * (n * q);
    assert 2 * t * ten == 2 * (t * ten);
    assert (2 * t + 1) * ten == 2 * (t * ten) + ten;
  }

  // ------------------------------------------------------------ sign and words

  /** M_NEG on 64-bit registers, then both cut to 32 bits. */
  function Finish(decI: int, decF: int, isneg: bool): Wide
  {
    var f := if isneg then U64(-decF) else decF;
    var i := if isneg then U64(-decI - 1 + (if f == 0 then 1 else 0)) else decI;
    Wide(U32(i), U32(f))
  }

  lemma FinishIsFixed(n: Numeral, decI: nat, decF: nat)
    requires decI == U64(Val(n.whole))
    requires var f := Used(n.fraction); decF == if f == [] then 0 else BinaryFraction(Val(f), |f|)
    ensures Finish(decI, decF, n.neg) == Fixed(n)
  {
    hide Val, BinaryFraction, U32, U64, Pow10, Neg, Finish;
    FractionFits(Used(n.fraction));
    Wrap32(decF, 0);
    FinishWords(Val(n.whole), decI, decF, n.neg);
  }

  lemma FractionFits(f: seq<Digit>)
    requires |f| <= 9
    ensures BinaryFraction(Val(f), |f|) < TWO32
  {
    hide Val, Pow10;
    ValBound(f);
    NineDigits(|f|);
    QuotientBound(Val(f), Pow10(|f|));
  }

  lemma QuotientBound(n: nat, p: nat)
    requires n < p < TWO32
    ensures n * TWO32 / p + 1 < TWO32
  {
    var q := n * TWO32 / p;
    assert p * q <= n * TWO32 <= (p - 1) * TWO32 < p * (TWO32 - 1);
    if q >= TWO32 - 1 {
      MulMono(p, TWO32 - 1, q);
    }
  }

  lemma FinishWords(v: nat, decI: int, decF: int, neg: bool)
    requires decI == U64(v) && 0 <= decF < TWO32
    ensures Finish(decI, decF, neg) == if neg then Neg(Wide(U32(v), decF)) else Wide(U32(v), decF)
  {
    hide U32, U64;
    LowOfU64(v);
    Wrap32(decF, 0);
    if neg {
      Wrap64(-decF, if decF == 0 then 0 else -1);
      LowOfU64(-decF);
      NotPlusOne(decF);
      var up := if decF == 0 then 1 else 0;
      LowOfU64(-decI - 1 + up);
      NotOfLow(v, decI, up);
    }
  }

  lemma NotPlusOne(f: int)
    requires 0 <= f < TWO32
    ensures U32(Not32(f) + 1) == U32(-f) && (U32(-f) == 0 <==> f == 0)
  {
  }

  lemma NotOfLow(v: nat, i: int, up: int)
    requires U32(i) == U32(v) && 0 <= up <= 1
    ensures U32(Not32(U32(v)) + up) == U32(-i - 1 + up)
  {
  }

  // ---------------------------------------------------------- writing numerals

  /** The plain text of a numeral, always with a point. */
  function Write(n: Numeral): string
  {
    (if n.neg then "-" else "") + Chars(n.whole) + ("." + Chars(n.fraction))
  }

  lemma {:induction false} SkipAll(s: string, i: nat, j: nat)
    requires i <= j <= |s| && AllDigits(s[i..j]) && !IsDigit(CharAt(s, j))
    ensures SkipDigits(s, i) == j
    decreases j - i
  {
    if i < j {
      assert s[i] == s[i..j][0] && s[i + 1..j] == s[i..j][1..];
      SkipAll(s, i + 1, j);
    }
  }

  lemma CharsOfDigits(s: string)
    requires AllDigits(s)
    ensures Chars(DigitsOf(s)) == s
  {
  }

  lemma WriteParts(n: Numeral)
    ensures var s, c := Write(n), if n.neg then 1 else 0;
            var e := c + |n.whole|;
            && e < |s| && s[c..e] == Chars(n.whole) && s[e] == '.' && s[e + 1..] == Chars(n.fraction)
            && (n.neg ==> s[0] == '-')
  {
    hide Chars;
  }

  /** Parsing reads back what was written. */
  lemma ParseWrite(n: Numeral, plus: bool)
    ensures Parse(Write(n), plus) == Some(n)
  {
    hide Chars, DigitsOf, Write;
    var s, c := Write(n), if n.neg then 1 else 0;
    var e := c + |n.whole|;
    WriteParts(n);
    DigitsOfChars(n.whole);
    DigitsOfChars(n.fraction);
    assert s[e + 1..|s|] == s[e + 1..];
    SkipAll(s, c, e);
    SkipAll(s, e + 1, |s|);
    assert n.whole != [] ==> s[c] == s[c..e][0];
    assert SkipSpaces(s, 0) == 0;
    hide SkipDigits, SkipSpaces, AllDigits;
  }

  // ------------------------------------------------------------------- mstolfp

  /** The numeral with its point three places further left. */
  function Thousandth(n: Numeral): Numeral
  {
    var m := |n.whole|;
    if m > 3 then Numeral(n.neg, n.whole[..m - 3], n.whole[m - 3..] + n.fraction)
    else Numeral(n.neg, [0], seq(3 - m, _ => 0) + n.whole + n.fraction)
  }

  /** It denotes exactly a thousandth: the same digits, three more decimals. */
  lemma ThousandthIsExact(n: Numeral)
    ensures var t := Thousandth(n);
            && t.neg == n.neg && |t.fraction| == |n.fraction| + 3
            && Val(t.whole + t.fraction) == Val(n.whole + n.fraction)
  {
    hide Val;
    var t, m := Thousandth(n), |n.whole|;
    if m > 3 {
      assert t.whole + t.fraction == n.whole + n.fraction;
    } else {
      var all := t.whole + t.fraction;
      assert all[4 - m..] == n.whole + n.fraction;
      ValSkipZeros(all, 4 - m);
    }
  }

  /** The buffer that mstolfp provides. */
  const BUFFER := 100

  /** How many characters of it the rewriting fills, the final NUL included: those of a
      text that turns out not to end properly count as well. */
  function BufferNeed(s: string): nat
  {
    var a := SkipSpaces(s, 0);
    var sign := if CharAt(s, a) == '-' then 1 else 0;
    var c := a + sign;
    if CharAt(s, c) != '.' && !IsDigit(CharAt(s, c)) then sign
    else
      var e := SkipDigits(s, c);
      var fraction := if CharAt(s, e) == '.' then SkipDigits(s, e + 1) - (e + 1) else 0;
      sign + (if e - c > 4 then e - c else 4) + 1 + fraction + 1
  }

  /** An accepted text fits if and only if its sign, its integral digits, counted as at
      least four, and its fraction digits are 98 characters or fewer. */
  lemma BufferSuffices(s: string)
    requires Parse(s, false).Some?
    ensures var n := Parse(s, false).value;
            && BufferNeed(s) == |Write(Thousandth(n))| + 1
            && (BufferNeed(s) <= BUFFER <==>
                (if n.neg then 1 else 0) + (if |n.whole| > 4 then |n.whole| else 4) + |n.fraction| <= 98)
  {
    hide SkipSpaces, SkipDigits, AllDigits, IsEnd;
    var n := Parse(s, false).value;
    WrittenLength(n);
    NotPoint();
    hide Write, Thousandth;
  }

  lemma NotPoint()
    ensures !IsEnd('.')
  {
  }

  lemma WrittenLength(n: Numeral)
    ensures |Write(Thousandth(n))|
            == (if n.neg then 1 else 0) + (if |n.whole| > 4 then |n.whole| else 4) + 1 + |n.fraction|
  {
    hide Chars;
  }

  /** A text of digits alone fits up to 98 of them. */
  lemma ManyDigits(s: string)
    requires AllDigits(s) && s != ""
    ensures BufferNeed(s) <= BUFFER <==> |s| <= 98
  {
    assert s[0..|s|] == s && IsDigit(s[0]);
    SkipAll(s, 0, |s|);
    assert SkipSpaces(s, 0) == 0;
    hide SkipDigits, SkipSpaces, AllDigits;
  }

  /** mstolfp: rewrite the text into seconds, then convert that.  need is the room it
      takes in the buffer. */
  method Mstolfp(str: string) returns (r: Option<Wide>, need: nat)
    ensures var p := Parse(str, false); r == if p.Some? then Some(Fixed(Thousandth(p.value))) else None
    ensures need == BufferNeed(str)
  {
    hide Fixed, Parse, Write, Thousandth, BufferNeed;
    var buf;
    buf, need := Rewrite(str);
    if buf.None? {
      return None, need;
    }
    ParseWrite(Thousandth(Parse(str, false).value), true);
    r := Atolfp(buf.value);
  }

  /** The rewriting itself, into a buffer as long as the text needs. */
  method Rewrite(str: string) returns (r: Option<string>, need: nat)
    ensures var p := Parse(str, false); r == if p.Some? then Some(Write(Thousandth(p.value))) else None
    ensures need == BufferNeed(str)
  {
    hide Chars, DigitsOf, SkipSpaces, SkipDigits, Write, Thousandth, Moved, AllDigits, Parse, BufferNeed;
    var bp := "";
    var cp := SpacesSkipped(str);
    ghost var a := cp;
    if CharAt(str, cp) == '-' {
      bp := bp + "-";
      cp := cp + 1;
    }
    ghost var c := cp;
    NothingScanned(str, a, c);
    if CharAt(str, cp) != '.' && !IsDigit(CharAt(str, cp)) {
      return None, |bp|;
    }
    var cpdec := DigitsSkipped(str, cp);
    bp := MovePoint(str, cp, cpdec, bp);
    MovedLength(str[cp..cpdec]);
    cp := cpdec;
    if CharAt(str, cp) == '.' {
      bp, cp := CopyDigits(str, cp + 1, bp);
    }
    need := |bp| + 1;
    Scanned(str, a, c, cpdec, cp);
    if !IsEnd(CharAt(str, cp)) {
      return None, need;
    }
    r := Some(bp);
    ghost var fraction := if CharAt(str, cpdec) == '.' then str[cpdec + 1..cp] else "";
    EmptyScan(str, 0);
    Assembled(c > a, str[c..cpdec], fraction, bp);
  }

  /** What the scan of a text has found: no number, ... */
  lemma NothingScanned(s: string, a: nat, c: nat)
    requires a == SkipSpaces(s, 0) && c == if CharAt(s, a) == '-' then a + 1 else a
    ensures CharAt(s, c) != '.' && !IsDigit(CharAt(s, c)) ==> Parse(s, false) == None && BufferNeed(s) == c - a
  {
    hide SkipSpaces, SkipDigits;
  }

  /** ... or digits up to e and, after a point, up to f. */
  lemma Scanned(s: string, a: nat, c: nat, e: nat, f: nat)
    requires a == SkipSpaces(s, 0) && c == (if CharAt(s, a) == '-' then a + 1 else a) <= |s|
    requires CharAt(s, c) == '.' || IsDigit(CharAt(s, c))
    requires e == SkipDigits(s, c) && f == if CharAt(s, e) == '.' then SkipDigits(s, e + 1) else e
    ensures var fraction := if CharAt(s, e) == '.' then f - (e + 1) else 0;
            BufferNeed(s) == c - a + (if e - c > 4 then e - c else 4) + 1 + fraction + 1
    ensures Parse(s, false)
         == if !IsEnd(CharAt(s, f)) then None
            else Some(Numeral(c > a, DigitsOf(s[c..e]), if CharAt(s, e) == '.' then DigitsOf(s[e + 1..f]) else []))
  {
    hide SkipSpaces, SkipDigits, DigitsOf, AllDigits;
    NotPoint();
  }

  method SpacesSkipped(str: string) returns (cp: nat)
    ensures cp == SkipSpaces(str, 0) && cp <= |str|
  {
    cp := 0;
    while IsSpace(CharAt(str, cp))
      invariant cp <= |str| && SkipSpaces(str, cp) == SkipSpaces(str, 0)
      decreases |str| - cp
    {
      cp := cp + 1;
    }
  }

  method DigitsSkipped(str: string, start: nat) returns (cp: nat)
    requires start <= |str|
    ensures cp == SkipDigits(str, start)
  {
    cp := start;
    while IsDigit(CharAt(str, cp))
      invariant cp <= |str| && SkipDigits(str, cp) == SkipDigits(str, start)
      decreases |str| - cp
    {
      cp := cp + 1;
    }
  }

  method CopyDigits(str: string, start: nat, stem: string) returns (bp: string, cp: nat)
    requires start <= |str|
    ensures cp == SkipDigits(str, start) && bp == stem + str[start..cp]
  {
    bp, cp := stem, start;
    while IsDigit(CharAt(str, cp))
      invariant start <= cp <= |str| && SkipDigits(str, cp) == SkipDigits(str, start)
      invariant bp == stem + str[start..cp]
      decreases |str| - cp
    {
      bp := bp + [str[cp]];
      cp := cp + 1;
    }
  }

  /** The milliseconds' integral digits, with the point three places back. */
  function Moved(digits: string): string
  {
    var m := |digits|;
    if m > 3 then digits[..m - 3] + "." + digits[m - 3..] else "0" + "." + seq(3 - m, _ => '0') + digits
  }

  lemma MovedLength(digits: string)
    ensures |Moved(digits)| == (if |digits| > 4 then |digits| else 4) + 1
  {
  }

  method MovePoint(str: string, start: nat, cpdec: nat, stem: string) returns (bp: string)
    requires start <= cpdec <= |str|
    ensures bp == stem + Moved(str[start..cpdec])
  {
    hide Moved;
    var cp := start;
    MovedText(stem, str, start, cpdec);
    if cpdec - cp > 3 {
      bp := CopyRange(str, cp, cpdec - 3, stem);
      cp := cpdec - 3;
      bp := bp + ".";
      bp := CopyRange(str, cp, cpdec, bp);
    } else {
      bp := stem + "0";
      bp := bp + ".";
      bp := AppendZeros(bp, 3 - (cpdec - cp));
      bp := CopyRange(str, cp, cpdec, bp);
    }
  }

  lemma MovedText(stem: string, str: string, start: nat, end: nat)
    requires start <= end <= |str|
    ensures stem + Moved(str[start..end])
         == if end - start > 3 then stem + str[start..end - 3] + "." + str[end - 3..end]
            else stem + "0" + "." + seq(3 - (end - start), _ => '0') + str[start..end]
  {
    var digits := str[start..end];
    if |digits| > 3 {
      assert digits[..|digits| - 3] == str[start..end - 3] && digits[|digits| - 3..] == str[end - 3..end];
    }
  }

  method CopyRange(str: string, start: nat, end: nat, stem: string) returns (bp: string)
    requires start <= end <= |str|
    ensures bp == stem + str[start..end]
  {
    bp := stem;
    var cp := start;
    while cp < end
      invariant start <= cp <= end && bp == stem + str[start..cp]
    {
      bp := bp + [str[cp]];
      cp := cp + 1;
    }
  }

  method AppendZeros(stem: string, n: nat) returns (bp: string)
    ensures bp == stem + seq(n, _ => '0')
  {
    bp := stem;
    var i := n;
    while i > 0
      invariant 0 <= i <= n && bp == stem + seq(n - i, _ => '0')
    {
      bp := bp + "0";
      i := i - 1;
    }
  }

  lemma Assembled(neg: bool, whole: string, fraction: string, bp: string)
    requires AllDigits(whole) && AllDigits(fraction)
    requires bp == (if neg then "-" else "") + Moved(whole) + fraction
    ensures bp == Write(Thousandth(Numeral(neg, DigitsOf(whole), DigitsOf(fraction))))
  {
    hide *;
    var t := Thousandth(Numeral(neg, DigitsOf(whole), DigitsOf(fraction)));
    MovedParts(neg, whole, fraction);
    WrittenParts(t, if neg then "-" else "", Moved(whole), fraction);
  }

  lemma MovedParts(neg: bool, whole: string, fraction: string)
    requires AllDigits(whole) && AllDigits(fraction)
    ensures var t := Thousandth(Numeral(neg, DigitsOf(whole), DigitsOf(fraction)));
            t.neg == neg && Moved(whole) + fraction == Chars(t.whole) + ("." + Chars(t.fraction))
  {
    hide Chars, DigitsOf, AllDigits, Moved;
    if |whole| > 3 {
      LongParts(whole, fraction);
    } else {
      ShortParts(whole, fraction);
    }
  }

  lemma WrittenParts(t: Numeral, sign: string, moved: string, fraction: string)
    requires sign == (if t.neg then "-" else "") && moved + fraction == Chars(t.whole) + ("." + Chars(t.fraction))
    ensures Write(t) == sign + moved + fraction
  {
    hide Chars;
    assert sign + moved + fraction == sign + (moved + fraction);
    assert sign + (Chars(t.whole) + ("." + Chars(t.fraction))) == sign + Chars(t.whole) + ("." + Chars(t.fraction));
  }

  lemma LongParts(whole: string, fraction: string)
    requires AllDigits(whole) && AllDigits(fraction) && |whole| > 3
    ensures var w, f := DigitsOf(whole), DigitsOf(fraction);
            && |w| == |whole|
            && Moved(whole) + fraction == Chars(w[..|w| - 3]) + ("." + Chars(w[|w| - 3..] + f))
  {
    var w, f, m := DigitsOf(whole), DigitsOf(fraction), |whole|;
    CharsOfDigits(whole);
    CharsOfDigits(fraction);
    hide Chars, DigitsOf, AllDigits;
    CharsSplit(w, m - 3);
    CharsConcat(w[m - 3..], f);
    Regrouped(whole[..m - 3], whole[m - 3..], fraction);
  }

  lemma ShortParts(whole: string, fraction: string)
    requires AllDigits(whole) && AllDigits(fraction) && |whole| <= 3
    ensures var w, f := DigitsOf(whole), DigitsOf(fraction);
            && |w| == |whole|
            && Moved(whole) + fraction == Chars([0]) + ("." + Chars(seq(3 - |w|, _ => 0) + w + f))
  {
    var w, f, m := DigitsOf(whole), DigitsOf(fraction), |whole|;
    CharsOfDigits(whole);
    CharsOfDigits(fraction);
    hide Chars, DigitsOf, AllDigits;
    var zeros: seq<Digit> := seq(3 - m, _ => 0);
    var z: string := seq(3 - m, _ => '0');
    CharsConcat(zeros, w);
    CharsConcat(zeros + w, f);
    ZeroChars(3 - m);
    assert Moved(whole) == "0" + "." + (z + whole);
    Regrouped("0", z + whole, fraction);
  }

  lemma Regrouped(a: string, b: string, f: string)
    ensures (a + "." + b) + f == a + ("." + (b + f))
  {
  }

  lemma CharsConcat(a: seq<Digit>, b: seq<Digit>)
    ensures Chars(a + b) == Chars(a) + Chars(b)
  {
  }

  lemma CharsSplit(ds: seq<Digit>, k: nat)
    requires k <= |ds|
    ensures Chars(ds[..k]) == Chars(ds)[..k] && Chars(ds[k..]) == Chars(ds)[k..]
  {
  }

  lemma ZeroChars(n: nat)
    ensures Chars(seq(n, _ => 0)) == seq(n, _ => '0') && Chars([0]) == "0"
  {
  }
}
