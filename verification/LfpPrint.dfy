/** libntp/dolfptoa.c: a two-word fixed-point number printed in decimal. */
module LfpPrint {
  import opened Words
  import opened Decimal

  const POINT := 10
  const CBUF := 24

  /** v * 10^d / 2^32, rounded to the nearest integer, halves up. */
  function Rounded(v: nat, d: nat): nat { (v * Pow10(d) + TWO31) / TWO32 }

  /** The number of decimals asked for: 3 more in milliseconds, and at most 14. */
  function Decimals(ndec: int, msec: bool): nat
  {
    var d := (if ndec < 0 then 0 else ndec) + if msec then 3 else 0;
    if d > CBUF - POINT then CBUF - POINT else d
  }

  /** v with d decimals, the point moved right by `shift` places. */
  function Printed(neg: bool, v: nat, d: nat, shift: nat): string
    requires shift <= d
  {
    CanonDigitsCorrect(Rounded(v, d), d - shift);
    Text(neg, CanonDigits(Rounded(v, d), d - shift), d - shift)
  }

  /** dolfptoa: the text is the canonical numeral of the rounded value. */
  method Dolfptoa(fpi: u32, fpv: u32, neg: bool, ndec: int, msec: bool) returns (buf: string)
    ensures buf == Printed(neg, fpi * TWO32 + fpv, Decimals(ndec, msec), if msec then 3 else 0)
  {
    hide Val, Rounded, Text, CanonDigits;
    var cbuf := new Digit[CBUF](_ => 0);
    var dec := if ndec < 0 then 0 else ndec;
    var cpdec := POINT;
    if msec {
      dec := dec + 3;
      cpdec := cpdec + 3;
    }
    if dec > CBUF - POINT {
      dec := CBUF - POINT;
    }
    var cp := Digits(cbuf, fpi, fpv, dec);
    var cpend := POINT + dec;
    ghost var all := cbuf[..cpend];
    while cp < cpdec && cbuf[cp] == 0
      invariant cp <= cpend && cbuf[..cpend] == all
      invariant forall i :: 0 <= i < cp ==> all[i] == 0
    {
      cp := cp + 1;
    }
    if cp >= cpdec {
      cp := cpdec - 1;
    }
    ghost var ds := cbuf[cp..cpend];
    assert ds == all[cp..];
    ValSkipZeros(all, cp);
    ghost var k := cpend - cpdec;
    CanonDigitsCorrect(Val(ds), k);
    CanonicalUnique(ds, CanonDigits(Val(ds), k), k);
    buf := Output(cbuf, cp, cpdec, cpend, neg);
  }

  /** The absolute value of a signed fixed-point number. */
  function Magnitude(w: Wide): nat { if IsNeg(w) then Neg(w).Value() else w.Value() }

  lemma MagnitudeCorrect(w: Wide)
    ensures Magnitude(w) == if w.Signed() < 0 then -w.Signed() else w.Signed()
    ensures w.Value() == U64(if IsNeg(w) then -(Magnitude(w) as int) else Magnitude(w))
  {
    IsNegIsSign(w);
    var v := w.Value();
    if IsNeg(w) {
      Wrap64(-v, -1);
      Wrap64(-(TWO64 - v), -1);
    } else {
      Wrap64(v, 0);
    }
  }

  /** mfptoa and mfptoms: negate a negative number, then print it. */
  method Mfptoa(w: Wide, ndec: int) returns (buf: string)
    ensures buf == Printed(w.Signed() < 0, Magnitude(w), Decimals(ndec, false), 0)
  {
    IsNegIsSign(w);
    var v := if IsNeg(w) then Neg(w) else w;
    buf := Dolfptoa(v.hi, v.lo, IsNeg(w), ndec, false);
  }

  method Mfptoms(w: Wide, ndec: int) returns (buf: string)
    ensures buf == Printed(w.Signed() < 0, Magnitude(w), Decimals(ndec, true), 3)
  {
    IsNegIsSign(w);
    var v := if IsNeg(w) then Neg(w) else w;
    buf := Dolfptoa(v.hi, v.lo, IsNeg(w), ndec, true);
  }

  /** The buffer filled and rounded: all digits up to the dec-th decimal. */
  method Digits(cbuf: array<Digit>, fpi: u32, fpv: u32, ndec: nat) returns (cp: nat)
    requires cbuf.Length == CBUF && ndec <= CBUF - POINT && forall i :: 0 <= i < CBUF ==> cbuf[i] == 0
    modifies cbuf
    ensures cp <= POINT && Val(cbuf[..POINT + ndec]) == Rounded(fpi * TWO32 + fpv, ndec)
    ensures forall i :: 0 <= i < cp ==> cbuf[i] == 0
  {
    hide Val, Pow10, Rounded, Increment;
    cp := IntegralDigits(cbuf, fpi);
    ghost var a := cbuf[..POINT];
    var cpend, dec, rest := FractionDigits(cbuf, ndec, fpv);
    ghost var b := cbuf[POINT..cpend];
    assert cbuf[..POINT] == a;
    if dec > 0 {
      ghost var zeros := cbuf[cpend..cpend + dec];
      ExtendZeros(fpv, b, zeros);
      cpend := cpend + dec;
      assert cbuf[..cpend] == a + (b + zeros);
      BufferValue(fpi, fpv, a, b + zeros, 0, ndec);
    } else {
      assert cbuf[..cpend] == a + b;
      BufferValue(fpi, fpv, a, b, rest, ndec);
      FitsWithCarry(a, b, fpi);
      IncrementAddsOne(a + b);
      var tp := RoundUp(cbuf, cpend, rest >= TWO31);
      if tp < cp {
        cp := tp;
      }
    }
  }

  /** An exhausted fraction goes on with zeros. */
  lemma ExtendZeros(fpv: u32, b: seq<Digit>, zeros: seq<Digit>)
    requires fpv * Pow10(|b|) == Val(b) * TWO32 && forall i :: 0 <= i < |zeros| ==> zeros[i] == 0
    ensures fpv * Pow10(|b + zeros|) == Val(b + zeros) * TWO32
  {
    hide Val, Pow10;
    ValConcat(b, zeros);
    ValZeros(zeros);
    Pow10Sum(|b|, |zeros|);
    Regroup(fpv, Pow10(|b|), Pow10(|zeros|), Val(b));
  }

  lemma Regroup(f: nat, p: nat, q: nat, v: nat)
    requires f * p == v * TWO32
    ensures f * (p * q) == v * q * TWO32
  {
    assert f * (p * q) == f * p * q;
  }

  /** A 32-bit integral part leaves room for the carry. */
  lemma FitsWithCarry(a: seq<Digit>, b: seq<Digit>, fpi: u32)
    requires |a| == POINT && Val(a) == fpi
    ensures Val(a + b) + 1 < Pow10(|a + b|)
  {
    hide Val, Pow10;
    ValConcat(a, b);
    ValBound(b);
    PowerOfTen();
    Pow10Sum(POINT, |b|);
    var p := Pow10(|b|);
    assert (fpi + 1) * p <= TWO32 * p < Pow10(10) * p;
    assert fpi * p + p == (fpi + 1) * p;
  }

  /** The digits of the integral part, right-aligned before the point. */
  method IntegralDigits(cbuf: array<Digit>, fpi: u32) returns (cp: nat)
    requires cbuf.Length == CBUF && forall i :: 0 <= i < CBUF ==> cbuf[i] == 0
    modifies cbuf
    ensures cp <= POINT && Val(cbuf[..POINT]) == fpi
    ensures forall i :: 0 <= i < CBUF && !(cp <= i < POINT) ==> cbuf[i] == 0
  {
    var rest := fpi;
    cp := POINT;
    assert cbuf[cp..POINT] == [];
    assert fpi == Placed(rest, []);
    hide Val, Placed, U32;
    while cp > 0 && rest != 0
      invariant 0 <= cp <= POINT && 0 <= rest < TWO32
      invariant fpi == Placed(rest, cbuf[cp..POINT])
      invariant forall i :: 0 <= i < CBUF && !(cp <= i < POINT) ==> cbuf[i] == 0
      decreases cp
    {
      var digit := rest;
      ghost var tail := cbuf[cp..POINT];
      LowDigit(rest);
      rest := rest / 10;
      digit := U32(digit - U32(U32(rest * 8) + U32(rest * 2)));
      cp := cp - 1;
      cbuf[cp] := digit;
      assert cbuf[cp..POINT] == [digit] + tail;
      PushDigit(digit, tail, rest);
    }
    TenDigits(rest, cp, cbuf[cp..POINT]);
    ValSkipZeros(cbuf[..POINT], cp);
    assert cbuf[..POINT][cp..] == cbuf[cp..POINT];
  }

  lemma LowDigit(f: u32)
    ensures U32(f - U32(U32(f / 10 * 8) + U32(f / 10 * 2))) == f % 10
  {
    var q := f / 10;
    Wrap32(q * 8, 0);
    Wrap32(q * 2, 0);
    Wrap32(q * 8 + q * 2, 0);
    Wrap32(f - q * 10, 0);
  }

  /** A number with further digits after it. */
  function Placed(rest: nat, ds: seq<Digit>): nat { rest * Pow10(|ds|) + Val(ds) }

  lemma PushDigit(digit: Digit, tail: seq<Digit>, rest: nat)
    ensures Placed(rest, [digit] + tail) == Placed(rest * 10 + digit, tail)
  {
    hide Val, Pow10;
    ValConcat([digit], tail);
    OneDigit(digit);
    Pow10Sum(|tail|, 1);
    TenTimes(rest, digit, Pow10(|tail|));
  }

  lemma OneDigit(d: Digit)
    ensures Val([d]) == d && Pow10(1) == 10
  {
    ValOne(d);
  }

  lemma TenTimes(rest: nat, d: nat, p: nat)
    ensures d * p + rest * (p * 10) == (rest * 10 + d) * p
  {
  }

  /** Ten digits hold any 32-bit number. */
  lemma TenDigits(rest: nat, cp: nat, ds: seq<Digit>)
    requires cp <= POINT && |ds| == POINT - cp && Placed(rest, ds) < TWO32
    requires cp == 0 || rest == 0
    ensures rest == 0 && Placed(rest, ds) == Val(ds)
  {
    if cp == 0 && rest > 0 {
      PowerOfTen();
      MulAtLeast(rest, Pow10(10));
    }
  }

  lemma PowerOfTen()
    ensures Pow10(9) == 1_000_000_000 && Pow10(10) == 10_000_000_000
  {
    assert Pow10(4) == 10000;
    assert Pow10(8) == 1_0000_0000;
  }

  /** The next decimal digits of the fraction, until it is exhausted: multiply by
      ten with shifts and an add, in two words. */
  method FractionDigits(cbuf: array<Digit>, ndec: nat, fpv: u32) returns (cpend: nat, dec: nat, rest: u32)
    requires cbuf.Length == CBUF && ndec <= CBUF - POINT && forall i :: POINT <= i < CBUF ==> cbuf[i] == 0
    modifies cbuf
    ensures POINT <= cpend && dec == ndec - (cpend - POINT) && (dec > 0 ==> rest == 0)
    ensures fpv * Pow10(cpend - POINT) == Val(cbuf[POINT..cpend]) * TWO32 + rest
    ensures forall i :: 0 <= i < POINT || cpend <= i < CBUF ==> cbuf[i] == old(cbuf[i])
  {
    hide Val, Pow10, ShiftLeft, Add;
    cpend, dec, rest := POINT, ndec, fpv;
    NoDigits();
    assert cbuf[POINT..cpend] == [];
    while dec > 0 && rest != 0
      invariant POINT <= cpend && 0 <= dec == ndec - (cpend - POINT)
      invariant fpv * Pow10(cpend - POINT) == Val(cbuf[POINT..cpend]) * TWO32 + rest
      invariant forall i :: 0 <= i < POINT || cpend <= i < CBUF ==> cbuf[i] == old(cbuf[i])
      decreases dec
    {
      var w := ShiftLeft(Wide(0, rest));
      var tmp := w;
      w := ShiftLeft(w);
      w := ShiftLeft(w);
      w := Add(w, tmp);
      TimesTen(rest);
      ghost var head := cbuf[POINT..cpend];
      cbuf[cpend] := w.hi;
      assert cbuf[POINT..cpend + 1] == head + [w.hi];
      NextDigit(fpv, head, rest, w.hi, w.lo);
      rest := w.lo;
      cpend := cpend + 1;
      dec := dec - 1;
    }
  }

  lemma TimesTen(f: u32)
    ensures var w := ShiftLeft(Wide(0, f));
            var t := Add(ShiftLeft(ShiftLeft(w)), w);
            t.hi * TWO32 + t.lo == 10 * f && t.hi < 10
  {
    hide ShiftLeft, Add, U64;
    var w := ShiftLeft(Wide(0, f));
    Wrap64(2 * f, 0);
    Wrap64(2 * (2 * f), 0);
    Wrap64(2 * (4 * f), 0);
    Wrap64(8 * f + 2 * f, 0);
  }

  lemma NoDigits()
    ensures Val([]) == 0 && Pow10(0) == 1
  {
  }

  lemma NextDigit(f: nat, head: seq<Digit>, rest: nat, hi: nat, lo: nat)
    requires f * Pow10(|head|) == Val(head) * TWO32 + rest && hi * TWO32 + lo == 10 * rest && hi < 10
    ensures f * Pow10(|head| + 1) == Val(head + [hi]) * TWO32 + lo
  {
    assert Pow10(|head| + 1) == 10 * Pow10(|head|);
    hide Val, Pow10;
    ValSnoc(head, hi);
    TenFold(f, Pow10(|head|));
  }

  /** Rounding: carry into the digits before cpend. */
  method RoundUp(cbuf: array<Digit>, cpend: nat, round: bool) returns (tp: nat)
    requires cbuf.Length == CBUF && cpend <= CBUF
    modifies cbuf
    ensures tp <= cpend && cbuf[..cpend] == if round then Increment(old(cbuf[..cpend])) else old(cbuf[..cpend])
    ensures forall i :: 0 <= i < tp || cpend <= i < CBUF ==> cbuf[i] == old(cbuf[i])
  {
    tp := cpend;
    var carry := round;
    ghost var s := cbuf[..cpend];
    ghost var goal := if round then Increment(s) else s;
    ghost var now := s;
    hide Increment, Carried;
    CarryStart(s);
    while carry && tp > 0
      invariant tp <= cpend && now == cbuf[..cpend]
      invariant if carry then goal == Carried(now, tp) else goal == now
      invariant forall i :: 0 <= i < tp ==> cbuf[i] == old(cbuf[i])
      invariant forall i :: cpend <= i < CBUF ==> cbuf[i] == old(cbuf[i])
      decreases tp
    {
      tp := tp - 1;
      CarryStep(now, tp);
      var t: int := cbuf[tp] as int + 1;
      if t == 10 {
        cbuf[tp] := 0;
      } else {
        cbuf[tp] := t;
        carry := false;
      }
      assert now[tp := cbuf[tp]] == cbuf[..cpend];
      now := now[tp := cbuf[tp]];
    }
    CarryEnd(now);
  }

  /** s with one added to its first tp digits. */
  function Carried(s: seq<Digit>, tp: nat): seq<Digit>
    requires tp <= |s|
  { Increment(s[..tp]) + s[tp..] }

  lemma CarryStart(s: seq<Digit>)
    ensures Carried(s, |s|) == Increment(s)
  {
    hide Increment;
    assert s[..|s|] == s && s[|s|..] == [];
  }

  lemma CarryEnd(s: seq<Digit>)
    ensures Carried(s, 0) == s
  {
    assert s[..0] == [] && Increment([]) == [];
  }

  lemma CarryStep(s: seq<Digit>, tp: nat)
    requires tp < |s|
    ensures Carried(s, tp + 1) == if s[tp] == 9 then Carried(s[tp := 0], tp) else s[tp := s[tp] + 1]
  {
    var head, tail := s[..tp], s[tp + 1..];
    assert s[..tp + 1][..tp] == head && s[..tp + 1][tp] == s[tp];
    if s[tp] == 9 {
      assert s[tp := 0][..tp] == head && s[tp := 0][tp..] == [0] + tail;
      assert Increment(head) + [0] + tail == Increment(head) + ([0] + tail);
    } else {
      assert head + [s[tp] + 1] + tail == s[tp := s[tp] + 1];
    }
  }

  /** The characters, with the point put before position cpdec. */
  method Output(cbuf: array<Digit>, start: nat, cpdec: nat, cpend: nat, neg: bool) returns (buf: string)
    requires start < cpdec <= cpend <= cbuf.Length
    ensures buf == Text(neg, cbuf[start..cpend], cpend - cpdec)
  {
    hide Chars, Partial, Text;
    buf := if neg then "-" else "";
    var cp := start;
    ghost var ds := cbuf[start..cpend];
    PartialEnds(neg, ds, cpdec - start);
    while cp < cpend
      invariant start <= cp <= cpend
      invariant buf == Partial(neg, ds, cp - start, cpdec - start)
    {
      PartialStep(neg, ds, cp - start, cpdec - start);
      if cp == cpdec {
        buf := buf + ".";
      }
      buf := buf + [DigitChar(cbuf[cp])];
      cp := cp + 1;
    }
  }

  lemma PartialEnds(neg: bool, ds: seq<Digit>, m: nat)
    requires 0 < m <= |ds|
    ensures Partial(neg, ds, 0, m) == if neg then "-" else ""
    ensures Partial(neg, ds, |ds|, m) == Text(neg, ds, |ds| - m)
  {
    hide Chars;
    assert ds[..0] == [] && Chars([]) == "" && ds[..|ds|] == ds;
    assert ds[m..|ds|] == ds[m..];
  }

  /** The text after its first n digits, the point standing after the m-th. */
  function Partial(neg: bool, ds: seq<Digit>, n: nat, m: nat): string
    requires n <= |ds| && m <= |ds|
  {
    (if neg then "-" else "") + if n <= m then Chars(ds[..n]) else Chars(ds[..m]) + ("." + Chars(ds[m..n]))
  }

  lemma PartialStep(neg: bool, ds: seq<Digit>, n: nat, m: nat)
    requires n < |ds| && m <= |ds|
    ensures Partial(neg, ds, n + 1, m)
         == Partial(neg, ds, n, m) + (if n == m then "." else "") + [DigitChar(ds[n])]
  {
    hide Chars;
    if n < m {
      CharsSnoc(ds[..n], ds[n]);
      assert ds[..n + 1] == ds[..n] + [ds[n]];
    } else {
      CharsSnoc(ds[m..n], ds[n]);
      assert ds[m..n + 1] == ds[m..n] + [ds[n]];
      assert n == m ==> ds[m..n] == [] && Chars([]) == "";
    }
  }

  lemma CharsSnoc(ds: seq<Digit>, d: Digit)
    ensures Chars(ds + [d]) == Chars(ds) + [DigitChar(d)]
  {
  }

  /** The digits in the buffer, before and after rounding. */
  lemma BufferValue(fpi: u32, fpv: u32, a: seq<Digit>, b: seq<Digit>, rest: u32, d: nat)
    requires Val(a) == fpi && |b| == d && fpv * Pow10(d) == Val(b) * TWO32 + rest
    ensures Val(a + b) + (if rest >= TWO31 then 1 else 0) == Rounded(fpi * TWO32 + fpv, d)
  {
    hide Val, Pow10;
    ValConcat(a, b);
    RoundedSum(fpi, fpv, Pow10(d), Val(b), rest);
  }

  lemma RoundedSum(fpi: nat, fpv: nat, p: nat, v: nat, rest: u32)
    requires fpv * p == v * TWO32 + rest
    ensures ((fpi * TWO32 + fpv) * p + TWO31) / TWO32 == fpi * p + v + if rest >= TWO31 then 1 else 0
  {
    var n, up := fpi * p + v, if rest >= TWO31 then 1 else 0;
    Expand(fpi, fpv, p);
    DivModUnique(n * TWO32 + rest + TWO31, TWO32, n + up, rest + TWO31 - up * TWO32);
  }

  lemma Expand(fpi: nat, fpv: nat, p: nat)
    ensures (fpi * TWO32 + fpv) * p == fpi * p * TWO32 + fpv * p
  {
  }
}
