/** Printing and parsing fixed-point numbers are inverse to each other, up to the
    resolution of the two notations. */
module LfpText {
  import opened CStrings
  import opened Options
  import opened Words
  import opened Decimal
  import opened LfpPrint
  import opened LfpParse

  /** The numeral that Text(neg, ds, k) spells. */
  function NumeralOf(neg: bool, ds: seq<Digit>, k: nat): Numeral
    requires k <= |ds|
  {
    Numeral(neg, ds[..|ds| - k], ds[|ds| - k..])
  }

  lemma ParseText(neg: bool, ds: seq<Digit>, k: nat)
    requires 0 < k <= |ds|
    ensures Parse(Text(neg, ds, k), true) == Some(NumeralOf(neg, ds, k))
  {
    hide Parse, Chars;
    ParseWrite(NumeralOf(neg, ds, k), true);
  }

  lemma TextInjective(na: bool, a: seq<Digit>, nb: bool, b: seq<Digit>, k: nat)
    requires 0 < k <= |a| && k <= |b| && Text(na, a, k) == Text(nb, b, k)
    ensures na == nb && a == b
  {
    hide Text, Parse;
    ParseText(na, a, k);
    ParseText(nb, b, k);
    assert a == a[..|a| - k] + a[|a| - k..] && b == b[..|b| - k] + b[|b| - k..];
  }

  // ------------------------------------------------------------- magnitudes

  /** The parsed magnitude, in units of 2^-32. */
  function Units(ds: seq<Digit>, k: nat): nat
    requires k <= |ds|
  {
    Val(ds[..|ds| - k]) * TWO32 + BinaryFraction(Val(ds[|ds| - k..]), k)
  }

  /** Twice the distance from v / 2^32 to n / p, both cleared of denominators. */
  function Twice(v: int, p: int, n: int): int { 2 * (v * p - n * TWO32) }

  lemma FractionError(n: nat, k: nat)
    ensures Near(Twice(BinaryFraction(n, k), Pow10(k), n), Pow10(k))
  {
    hide Pow10;
    var p := Pow10(k);
    var q, r := n * TWO32 / p, n * TWO32 % p;
    assert n * TWO32 == p * q + r && 0 <= r < p;
    assert (q + 1) * p == p * q + p && q * p == p * q;
  }

  /** Parsing k <= 9 decimals is exact to half a unit; a zero fraction stays zero and
      no other one becomes zero. */
  lemma UnitsError(ds: seq<Digit>, k: nat)
    requires 0 < k <= 9 && k <= |ds|
    ensures var w, f, b := Val(ds[..|ds| - k]), Val(ds[|ds| - k..]), BinaryFraction(Val(ds[|ds| - k..]), k);
            Val(ds) == w * Pow10(k) + f && f < Pow10(k) && b < TWO32 && (b == 0 <==> f == 0)
    ensures Near(Twice(Units(ds, k), Pow10(k), Val(ds)), Pow10(k))
  {
    hide Val, Pow10, BinaryFraction, Twice;
    var a, c := ds[..|ds| - k], ds[|ds| - k..];
    PartsOf(ds, k);
    FractionFits(c);
    FractionError(Val(c), k);
    FractionZero(Val(c), k);
    Distribute(Val(a), BinaryFraction(Val(c), k), Pow10(k), Val(c));
  }

  lemma PartsOf(ds: seq<Digit>, k: nat)
    requires k <= |ds|
    ensures Val(ds) == Val(ds[..|ds| - k]) * Pow10(k) + Val(ds[|ds| - k..]) && Val(ds[|ds| - k..]) < Pow10(k)
  {
    hide Val, Pow10;
    var a, c := ds[..|ds| - k], ds[|ds| - k..];
    assert ds == a + c;
    ValConcat(a, c);
    ValBound(c);
  }

  lemma FractionZero(n: nat, k: nat)
    requires k <= 9
    ensures BinaryFraction(n, k) == 0 <==> n == 0
  {
    hide BinaryFraction, Pow10;
    NineDigits(k);
    FractionError(n, k);
    var b, p := BinaryFraction(n, k), Pow10(k);
    if n == 0 && b > 0 {
      MulAtLeast(b, p);
    }
  }

  lemma Distribute(w: nat, b: nat, p: nat, f: nat)
    ensures Twice(w * TWO32 + b, p, w * p + f) == Twice(b, p, f)
  {
    Expand(w, b, p);
  }

  /** The two words that atolfp makes of it. */
  lemma FixedUnits(neg: bool, ds: seq<Digit>, k: nat)
    requires 0 < k <= 9 && k <= |ds|
    ensures Fixed(NumeralOf(neg, ds, k)).Value() == U64(if neg then -(Units(ds, k) as int) else Units(ds, k))
  {
    hide Val, Pow10, BinaryFraction, U64, U32, Neg;
    UnitsError(ds, k);
    var w, b := Val(ds[..|ds| - k]), BinaryFraction(Val(ds[|ds| - k..]), k);
    Wrap32(b, 0);
    SignedWords(neg, w, b);
  }

  lemma SignedWords(neg: bool, w: nat, b: nat)
    requires b < TWO32
    ensures var v, x: int := Wide(U32(w), b), w * TWO32 + b;
            (if neg then Neg(v) else v).Value() == U64(if neg then -x else x)
  {
    hide U32, U64, Neg;
    HighWord(w, b);
    U64Neg(w * TWO32 + b);
  }

  // ---------------------------------------------- a numeral survives the trip

  /** The numerals that a signed fixed-point number can carry with k decimals. */
  predicate Representable(neg: bool, n: nat, k: nat)
  {
    if neg then 0 < n <= TWO31 * Pow10(k) else n < TWO31 * Pow10(k)
  }

  function Reprint(w: Wide, k: nat): string { Printed(w.Signed() < 0, Magnitude(w), k, 0) }

  /** mfptoa(atolfp(s), k) == s for a canonical numeral s with k in 1..9 decimals, if
      and only if its value lies in (-2^31 .. 2^31), or is -2^31, and is not -0. */
  lemma ParseThenPrint(neg: bool, ds: seq<Digit>, k: nat)
    requires 0 < k <= 9 && Canonical(ds, k)
    ensures Parse(Text(neg, ds, k), true) == Some(NumeralOf(neg, ds, k))
    ensures Reprint(Fixed(NumeralOf(neg, ds, k)), k) == Text(neg, ds, k) <==> Representable(neg, Val(ds), k)
  {
    hide Parse, Text, Val, Pow10, Fixed, Units, CanonDigits, Rounded, BinaryFraction, Magnitude;
    var w := Fixed(NumeralOf(neg, ds, k));
    ParseText(neg, ds, k);
    var r := Rounded(Magnitude(w), k);
    CanonDigitsCorrect(r, k);
    if Representable(neg, Val(ds), k) {
      Survives(neg, ds, k, w);
      CanonicalUnique(CanonDigits(r, k), ds, k);
    } else if Reprint(w, k) == Text(neg, ds, k) {
      TextInjective(w.Signed() < 0, CanonDigits(r, k), neg, ds, k);
      SignedRange(w, k);
      Unrepresentable(neg, ds, k, w);
    }
  }

  /** The magnitude printed and the sign are those read. */
  lemma Survives(neg: bool, ds: seq<Digit>, k: nat, w: Wide)
    requires 0 < k <= 9 && Canonical(ds, k) && Representable(neg, Val(ds), k)
    requires w == Fixed(NumeralOf(neg, ds, k))
    ensures (w.Signed() < 0) == neg && Rounded(Magnitude(w), k) == Val(ds)
  {
    hide Val, Pow10, Fixed, Units, BinaryFraction, Magnitude, U64, Rounded, Twice;
    var v := Units(ds, k);
    UnitsError(ds, k);
    FixedUnits(neg, ds, k);
    UnitsRange(neg, ds, k);
    SignOf(neg, v, w);
    MagnitudeCorrect(w);
    NineDigits(k);
    Nearest(v, k, Val(ds));
  }

  lemma UnitsRange(neg: bool, ds: seq<Digit>, k: nat)
    requires 0 < k <= 9 && Canonical(ds, k) && Representable(neg, Val(ds), k)
    ensures if neg then 0 < Units(ds, k) <= TWO63 else Units(ds, k) < TWO63
  {
    hide Val, Pow10, BinaryFraction, Twice;
    UnitsError(ds, k);
    var w, f := Val(ds[..|ds| - k]), Val(ds[|ds| - k..]);
    WholeRange(neg, w, f, Pow10(k));
  }

  lemma WholeRange(neg: bool, w: nat, f: nat, p: nat)
    requires f < p
    requires if neg then 0 < w * p + f <= TWO31 * p else w * p + f < TWO31 * p
    ensures w < TWO31 || (neg && w == TWO31 && f == 0)
    ensures neg ==> w > 0 || f > 0
  {
    if w > TWO31 {
      MulMono(p, TWO31 + 1, w);
    }
  }

  lemma SignOf(neg: bool, v: nat, w: Wide)
    requires w.Value() == U64(if neg then -(v as int) else v)
    requires if neg then 0 < v <= TWO63 else v < TWO63
    ensures w.Signed() == if neg then -(v as int) else v
  {
    hide U64;
    Wrap64(w.Value(), 0);
    if neg {
      Wrap64(-(v as int), -1);
    } else {
      Wrap64(v, 0);
    }
  }

  lemma Nearest(v: nat, k: nat, n: nat)
    requires Pow10(k) <= 1_000_000_000 && Near(Twice(v, Pow10(k), n), Pow10(k))
    ensures Rounded(v, k) == n
  {
    hide Pow10;
    var p := Pow10(k);
    DivModUnique(v * p + TWO31, TWO32, n, v * p - n * TWO32 + TWO31);
  }

  /** What any signed number can print. */
  lemma SignedRange(w: Wide, k: nat)
    ensures Rounded(Magnitude(w), k) <= TWO31 * Pow10(k)
    ensures w.Signed() == 0 <==> Magnitude(w) == 0
  {
    hide Pow10, U64, Magnitude;
    MagnitudeCorrect(w);
    var v, p := Magnitude(w), Pow10(k);
    assert v <= TWO63 by {
      Wrap64(w.Value(), 0);
    }
    MulMono(p, v, TWO63);
    var a, b := v * p + TWO31, TWO31 * p;
    assert TWO63 * p == TWO32 * b;
  }

  lemma Unrepresentable(neg: bool, ds: seq<Digit>, k: nat, w: Wide)
    requires 0 < k <= 9 && Canonical(ds, k) && w == Fixed(NumeralOf(neg, ds, k))
    requires !Representable(neg, Val(ds), k) && Val(ds) <= TWO31 * Pow10(k)
    ensures (w.Signed() < 0) != neg
  {
    hide Val, Pow10, Fixed, Units, BinaryFraction, U64;
    var v, p := Units(ds, k), Pow10(k);
    UnitsError(ds, k);
    FixedUnits(neg, ds, k);
    if neg {
      ZeroUnits(ds, k);
      Wrap64(0, 0);
    } else {
      TopUnits(ds, k);
      Wrap64(TWO63, 0);
    }
  }

  lemma ZeroUnits(ds: seq<Digit>, k: nat)
    requires 0 < k <= 9 && k <= |ds| && Val(ds) == 0
    ensures Units(ds, k) == 0
  {
    hide Val, Pow10, BinaryFraction;
    UnitsError(ds, k);
    var w := Val(ds[..|ds| - k]);
    if w > 0 {
      MulAtLeast(w, Pow10(k));
    }
  }

  lemma TopUnits(ds: seq<Digit>, k: nat)
    requires 0 < k <= 9 && k <= |ds| && Val(ds) == TWO31 * Pow10(k)
    ensures Units(ds, k) == TWO63
  {
    hide Val, Pow10, BinaryFraction, Twice;
    UnitsError(ds, k);
    SamePlaces(Val(ds[..|ds| - k]), Val(ds[|ds| - k..]), TWO31, Pow10(k));
  }

  lemma SamePlaces(w: nat, f: nat, v: nat, p: nat)
    requires w * p + f == v * p && f < p
    ensures w == v && f == 0
  {
    DivModUnique(v * p, p, w, f);
    DivModUnique(v * p, p, v, 0);
  }

  // -------------------------------------------- a number survives the trip

  /** Reading back what was printed with k decimals misses by e units of 2^-32,
      where 2 |e| 10^k <= 2^32 + 10^k. */
  lemma PrintThenParse(w: Wide, k: nat) returns (p: Numeral, e: int)
    requires 0 < k <= 9
    ensures Parse(Reprint(w, k), true) == Some(p)
    ensures Fixed(p).Value() == U64(w.Value() + e)
    ensures Near(2 * e * Pow10(k), TWO32 + Pow10(k))
  {
    hide Parse, Text, Val, Pow10, Fixed, Units, CanonDigits, Rounded, BinaryFraction, Magnitude, U64, Twice;
    var neg := w.Signed() < 0;
    var v: int := Magnitude(w);
    var r := Rounded(v, k);
    var ds := CanonDigits(r, k);
    CanonDigitsCorrect(r, k);
    ParseText(neg, ds, k);
    p := NumeralOf(neg, ds, k);
    FixedUnits(neg, ds, k);
    UnitsError(ds, k);
    MagnitudeCorrect(w);
    IsNegIsSign(w);
    var u: int := Units(ds, k);
    e := if neg then v - u else u - v;
    U64Plus(if neg then -v else v, e);
    RoundedError(v, k);
    Triangle(u, v, Pow10(k), r);
  }

  lemma RoundedError(v: nat, k: nat)
    ensures Near(Twice(v, Pow10(k), Rounded(v, k)), TWO32)
  {
    hide Pow10;
    var a := v * Pow10(k) + TWO31;
    assert a == TWO32 * (a / TWO32) + a % TWO32;
  }

  lemma Triangle(u: int, v: int, p: int, n: int)
    requires Near(Twice(u, p, n), p) && Near(Twice(v, p, n), TWO32)
    ensures Near(2 * (u - v) * p, TWO32 + p) && Near(2 * (v - u) * p, TWO32 + p)
  {
    assert 2 * (u - v) * p == 2 * (u * p) - 2 * (v * p);
    assert 2 * (v - u) * p == 2 * (v * p) - 2 * (u * p);
  }

  /** With nine decimals, that is at most two units. */
  lemma NineDecimals(w: Wide) returns (p: Numeral, e: int)
    ensures Parse(Reprint(w, 9), true) == Some(p)
    ensures Near(e, 2) && Fixed(p).Value() == U64(w.Value() + e)
  {
    hide Parse, Fixed, Reprint, U64;
    PowerOfTen();
    p, e := PrintThenParse(w, 9);
  }

  // ------------------------------------------------ what is printed, and what is read

  lemma ParseWhole(neg: bool, ds: seq<Digit>, plus: bool)
    requires ds != []
    ensures Parse(Text(neg, ds, 0), plus) == Some(Numeral(neg, ds, []))
  {
    hide Chars, DigitsOf, Text;
    var s, c := Text(neg, ds, 0), if neg then 1 else 0;
    WholeParts(neg, ds);
    DigitsOfChars(ds);
    SkipAll(s, c, |s|);
    assert s[c] == s[c..|s|][0];
    assert SkipSpaces(s, 0) == 0;
    hide SkipDigits, SkipSpaces, AllDigits;
  }

  lemma WholeParts(neg: bool, ds: seq<Digit>)
    requires ds != []
    ensures var s, c := Text(neg, ds, 0), if neg then 1 else 0;
            |s| == c + |ds| && s[c..|s|] == Chars(ds) && (neg ==> s[0] == '-')
  {
    hide Chars;
    assert ds[..|ds|] == ds;
  }

  /** What dolfptoa prints of v / 2^32, in units or, times 1000, in milliseconds: a numeral
      with the sign given, with as many decimals as asked for, up to 14, or 11 in
      milliseconds, without superfluous leading zeros, and nearest to the number, halves
      rounded up. */
  lemma PrintedMeaning(neg: bool, v: nat, ndec: int, msec: bool) returns (n: Numeral)
    ensures Parse(Printed(neg, v, Decimals(ndec, msec), if msec then 3 else 0), true) == Some(n)
    ensures n.neg == neg && n.whole != [] && (|n.whole| > 1 ==> n.whole[0] != 0)
    ensures |n.fraction| == (if ndec < 0 then 0 else if msec && ndec > 11 then 11 else if ndec > 14 then 14 else ndec)
    ensures var m, p := Val(n.whole + n.fraction), (if msec then 1000 else 1) * Pow10(|n.fraction|);
            m * TWO32 <= v * p + TWO31 < (m + 1) * TWO32
  {
    hide Parse, Text, Val, Pow10, Rounded, CanonDigits;
    var d := Decimals(ndec, msec);
    var k := d - (if msec then 3 else 0);
    var r := Rounded(v, d);
    var ds := CanonDigits(r, k);
    CanonDigitsCorrect(r, k);
    n := NumeralOf(neg, ds, k);
    assert ds == n.whole + n.fraction;
    if k > 0 {
      ParseText(neg, ds, k);
    } else {
      assert n == Numeral(neg, ds, []);
      ParseWhole(neg, ds, true);
    }
    ThreeMore(k);
    RoundedBounds(v, d);
  }

  lemma ThreeMore(k: nat)
    ensures Pow10(k + 3) == 1000 * Pow10(k)
  {
    Pow10Sum(k, 3);
    assert Pow10(3) == 1000;
  }

  lemma RoundedBounds(v: nat, d: nat)
    ensures Rounded(v, d) * TWO32 <= v * Pow10(d) + TWO31 < (Rounded(v, d) + 1) * TWO32
  {
    hide Pow10;
    var a := v * Pow10(d) + TWO31;
    assert a == TWO32 * (a / TWO32) + a % TWO32;
  }

  /** What atolfp makes of a numeral: the sum of its integral part and of the binary
      fraction nearest to its first nine decimals, negated for a minus sign, to 64 bits. */
  lemma FixedMeaning(n: Numeral) returns (b: nat)
    ensures var f := if |n.fraction| > 9 then n.fraction[..9] else n.fraction;
            && b < TWO32 && Near(2 * (b * Pow10(|f|) - Val(f) * TWO32), Pow10(|f|))
            && var x: int := Val(n.whole) * TWO32 + b;
               Fixed(n).Value() == U64(if n.neg then -x else x)
  {
    hide Val, Pow10, BinaryFraction, U64, U32, Neg, Near;
    var f := Used(n.fraction);
    b := BinaryFraction(Val(f), |f|);
    FractionError(Val(f), |f|);
    FractionFits(f);
    if f == [] {
      NoFraction();
    }
    Wrap32(b, 0);
    SignedWords(n.neg, Val(n.whole), b);
  }

  lemma NoFraction()
    ensures BinaryFraction(Val([]), 0) == 0
  {
  }
}
