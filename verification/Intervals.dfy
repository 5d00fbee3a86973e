/** include/timespecops.h and include/timevalops.h: seconds with nanoseconds or
    microseconds, and their conversion to and from two-word fixed point.  The two
    headers differ in the unit only, which is a parameter here. */
module Intervals {
  import opened Words

  const NANOSECONDS := 1_000_000_000
  const MICROSECONDS := 1_000_000

  type Unit = u: int | u == NANOSECONDS || u == MICROSECONDS witness MICROSECONDS

  /** struct timespec or timeval; the fraction may be denormal. */
  datatype Interval = Interval(sec: int, frac: int)

  function Total(x: Interval, unit: Unit): int { x.sec * unit + x.frac }

  predicate Normal(x: Interval, unit: Unit) { 0 <= x.frac < unit }

  // ------------------------------------------------------------ normalisation

  function Normalized(x: Interval, unit: Unit): Interval
  {
    Interval(x.sec + x.frac / unit, x.frac % unit)
  }

  /** It is the one normal interval with the same total. */
  lemma NormalForm(x: Interval, y: Interval, unit: Unit)
    ensures y == Normalized(x, unit) <==> Normal(y, unit) && Total(y, unit) == Total(x, unit)
  {
    var q, r := x.frac / unit, x.frac % unit;
    assert x.frac == unit * q + r && 0 <= r < unit;
    if Normal(y, unit) && Total(y, unit) == Total(x, unit) {
      DivModUnique(x.frac, unit, y.sec - x.sec, y.frac);
    }
  }

  /** normalize_tspec, normalize_tval: a division for far denormal fractions, then
      at most three steps. */
  method Normalize(x: Interval, unit: Unit) returns (r: Interval, ghost steps: nat)
    ensures r == Normalized(x, unit)
    ensures steps <= 3
  {
    r, steps := x, 0;
    if r.frac < -3 * unit || r.frac > 3 * unit {
      var z := TruncDiv(r.frac, unit);
      Truncated(r.frac, unit);
      r := r.(frac := r.frac - z * unit);
      r := r.(sec := r.sec + z);
    }
    if r.frac < 0 {
      while r.frac < 0
        invariant r.frac < unit && Total(r, unit) == Total(x, unit)
        invariant steps <= 3 && (steps - 3) * unit <= r.frac
        decreases -r.frac
      {
        r := r.(frac := r.frac + unit, sec := r.sec - 1);
        steps := steps + 1;
      }
    } else if r.frac >= unit {
      while r.frac >= unit
        invariant 0 <= r.frac && Total(r, unit) == Total(x, unit)
        invariant steps <= 3 && r.frac <= (3 - steps) * unit
        decreases r.frac
      {
        r := r.(frac := r.frac - unit, sec := r.sec + 1);
        steps := steps + 1;
      }
    }
    NormalForm(x, r, unit);
  }

  lemma Truncated(a: int, unit: Unit)
    ensures Near(a - TruncDiv(a, unit) * unit, unit - 1)
  {
    if a < 0 {
      assert -a == unit * (-a / unit) + -a % unit;
    }
  }

  // --------------------------------------------------------------- arithmetic

  function Plus(a: Interval, b: Interval, unit: Unit): Interval
  { Normalized(Interval(a.sec + b.sec, a.frac + b.frac), unit) }

  function PlusFraction(a: Interval, b: int, unit: Unit): Interval
  { Normalized(a.(frac := a.frac + b), unit) }

  function Minus(a: Interval, b: Interval, unit: Unit): Interval
  { Normalized(Interval(a.sec - b.sec, a.frac - b.frac), unit) }

  function Negated(a: Interval, unit: Unit): Interval
  { Normalized(Interval(-a.sec, -a.frac), unit) }

  function Absolute(a: Interval, unit: Unit): Interval
  {
    var c := Normalized(a, unit);
    if c.sec >= 0 then c
    else if c.frac != 0 then Interval(-c.sec - 1, unit - c.frac)
    else c.(sec := -c.sec)
  }

  function Sign(x: int): int { if x > 0 then 1 else if x < 0 then -1 else 0 }

  function Compare(a: Interval, b: Interval): int
  {
    var r := Sign(a.sec - b.sec);
    if r == 0 then Sign(a.frac - b.frac) else r
  }

  function Test(a: Interval): int
  {
    var r := Sign(a.sec);
    if r == 0 then (if a.frac > 0 then 1 else 0) else r
  }

  /** Every operation is the integer one on totals, with a normal result, whatever
      the form of the operands. */
  lemma ArithmeticOnTotals(a: Interval, b: Interval, n: int, unit: Unit)
    ensures Total(Plus(a, b, unit), unit) == Total(a, unit) + Total(b, unit) && Normal(Plus(a, b, unit), unit)
    ensures Total(PlusFraction(a, n, unit), unit) == Total(a, unit) + n && Normal(PlusFraction(a, n, unit), unit)
    ensures Total(Minus(a, b, unit), unit) == Total(a, unit) - Total(b, unit) && Normal(Minus(a, b, unit), unit)
    ensures Total(Negated(a, unit), unit) == -Total(a, unit) && Normal(Negated(a, unit), unit)
  {
    hide Normalized;
    NormalForm(Interval(a.sec + b.sec, a.frac + b.frac), Plus(a, b, unit), unit);
    NormalForm(a.(frac := a.frac + n), PlusFraction(a, n, unit), unit);
    NormalForm(Interval(a.sec - b.sec, a.frac - b.frac), Minus(a, b, unit), unit);
    NormalForm(Interval(-a.sec, -a.frac), Negated(a, unit), unit);
  }

  lemma AbsoluteOnTotals(a: Interval, unit: Unit)
    ensures Normal(Absolute(a, unit), unit)
    ensures Total(Absolute(a, unit), unit) == if Total(a, unit) < 0 then -Total(a, unit) else Total(a, unit)
  {
    hide Normalized;
    var c := Normalized(a, unit);
    NormalForm(a, c, unit);
    if c.sec < 0 {
      MulMono(unit, c.sec, -1);
    }
  }

  /** Comparing normal intervals compares totals; so does comparing any intervals
      after normalising them. */
  lemma CompareOnTotals(a: Interval, b: Interval, unit: Unit)
    ensures Normal(a, unit) && Normal(b, unit) ==> Compare(a, b) == Sign(Total(a, unit) - Total(b, unit))
    ensures Compare(Normalized(a, unit), Normalized(b, unit)) == Sign(Total(a, unit) - Total(b, unit))
    ensures Test(Normalized(a, unit)) == Sign(Total(a, unit))
  {
    hide Normalized, Total;
    var c, d := Normalized(a, unit), Normalized(b, unit);
    NormalForm(a, c, unit);
    NormalForm(b, d, unit);
    ZeroTotal(unit);
    CompareNormal(c, d, unit);
    CompareNormal(c, Interval(0, 0), unit);
    if Normal(a, unit) && Normal(b, unit) {
      CompareNormal(a, b, unit);
    }
  }

  lemma ZeroTotal(unit: Unit)
    ensures Total(Interval(0, 0), unit) == 0
  {
  }

  lemma CompareNormal(a: Interval, b: Interval, unit: Unit)
    requires Normal(a, unit) && Normal(b, unit)
    ensures Compare(a, b) == Sign(Total(a, unit) - Total(b, unit))
  {
    if a.sec > b.sec {
      MulMono(unit, b.sec + 1, a.sec);
    } else if a.sec < b.sec {
      MulMono(unit, a.sec + 1, b.sec);
    }
  }

  // -------------------------------------------------------- binary fractions

  /** FTOTVN, TSFTOTVU: a binary fraction in units, to nearest. */
  function FractionToUnits(f: u32, unit: Unit): int { S32(U64(f * unit + TWO31) / TWO32) }

  /** TVNTOF, TVUTOTSF: units to a binary fraction, to nearest. */
  function UnitsToFraction(n: int, unit: Unit): u32 { U32(U64(U64(n * TWO32) + unit / 2) / unit) }

  /** The same without word sizes. */
  function NearestUnits(f: int, unit: Unit): int { (f * unit + TWO31) / TWO32 }

  function NearestFraction(n: int, unit: Unit): int { (n * TWO32 + unit / 2) / unit }

  lemma FractionToUnitsExact(f: u32, unit: Unit)
    ensures FractionToUnits(f, unit) == NearestUnits(f, unit) && 0 <= NearestUnits(f, unit) <= unit
  {
    hide U64, U32;
    var x := f * unit + TWO31;
    Wrap64(x, 0);
    assert 0 <= x / TWO32 <= unit;
    Wrap32(x / TWO32, 0);
  }

  lemma UnitsToFractionExact(n: int, unit: Unit)
    requires 0 <= n < unit
    ensures UnitsToFraction(n, unit) == NearestFraction(n, unit) && 0 <= NearestFraction(n, unit) < TWO32
    ensures NearestFraction(n, unit) == 0 <==> n == 0
  {
    hide U64, U32;
    var x := n * TWO32 + unit / 2;
    Wrap64(n * TWO32, 0);
    Wrap64(x, 0);
    assert 0 <= x / unit < TWO32;
    Wrap32(x / unit, 0);
  }

  /** Twice the difference of f / 2^32 and n / unit, cleared of denominators. */
  function Gap(f: int, n: int, unit: Unit): int { 2 * (f * unit - n * TWO32) }

  lemma NearestUnitsGap(f: int, unit: Unit)
    ensures Near(Gap(f, NearestUnits(f, unit), unit), TWO32)
  {
    var x := f * unit + TWO31;
    assert x == TWO32 * (x / TWO32) + x % TWO32;
  }

  lemma NearestFractionGap(n: int, unit: Unit)
    ensures Near(Gap(NearestFraction(n, unit), n, unit), unit)
  {
    var x := n * TWO32 + unit / 2;
    assert x == unit * (x / unit) + x % unit;
  }

  lemma NearestIsUnique(f: int, n: int, unit: Unit)
    requires Near(Gap(f, n, unit), unit)
    ensures NearestUnits(f, unit) == n
  {
    DivModUnique(f * unit + TWO31, TWO32, n, f * unit - n * TWO32 + TWO31);
  }

  /** Units survive the binary fraction, from below and from above. */
  lemma UnitsSurvive(n: int, unit: Unit)
    requires 0 <= n < unit
    ensures NearestUnits(NearestFraction(n, unit), unit) == n
    ensures NearestUnits(TWO32 - NearestFraction(n, unit), unit) == unit - n
  {
    hide NearestUnits, NearestFraction;
    var f := NearestFraction(n, unit);
    NearestFractionGap(n, unit);
    NearestIsUnique(f, n, unit);
    assert Gap(TWO32 - f, unit - n, unit) == -Gap(f, n, unit) by {
      assert (TWO32 - f) * unit == TWO32 * unit - f * unit;
    }
    NearestIsUnique(TWO32 - f, unit - n, unit);
  }

  // -------------------------------------------------------- two-word numbers

  /** tspec_intv_to_lfp, tval_intv_to_lfp */
  function IntervalToLfp(x: Interval, unit: Unit): Wide
  {
    var v := Normalized(x, unit);
    Wide(U32(v.sec), UnitsToFraction(v.frac, unit))
  }

  /** lfp_intv_to_tspec, lfp_intv_to_tval */
  function LfpToInterval(x: Wide, unit: Unit): Interval
  {
    var neg := IsNeg(x);
    var absx := if neg then Neg(x) else x;
    var frac, sec := FractionToUnits(absx.lo, unit), S32(absx.hi);
    if neg then Normalized(Interval(-sec, -frac), unit) else Interval(sec, frac)
  }

  /** Its value is the total in units of 2^-32, rounded to nearest, mod 2^64. */
  lemma IntervalToLfpValue(x: Interval, unit: Unit)
    ensures IntervalToLfp(x, unit).Value() == U64(NearestFraction(Total(x, unit), unit))
  {
    hide U32, U64, Normalized, UnitsToFraction;
    var v := Normalized(x, unit);
    NormalForm(x, v, unit);
    UnitsToFractionExact(v.frac, unit);
    WholeSeconds(v, unit);
    HighWord(v.sec, NearestFraction(v.frac, unit));
  }

  lemma WholeSeconds(v: Interval, unit: Unit)
    ensures NearestFraction(Total(v, unit), unit) == v.sec * TWO32 + NearestFraction(v.frac, unit)
  {
    var x := v.frac * TWO32 + unit / 2;
    assert x == unit * (x / unit) + x % unit;
    DivModUnique(Total(v, unit) * TWO32 + unit / 2, unit, v.sec * TWO32 + x / unit, x % unit);
  }

  function Returned(v: Interval): Interval
  {
    v.(sec := if v.frac == 0 && S32(v.sec) == -TWO31 then TWO31 else S32(v.sec))
  }

  /** There and back: the seconds come back as a signed 32-bit number, and the lowest
      one without a fraction comes back with the wrong sign. */
  lemma BackAgain(x: Interval, unit: Unit)
    ensures LfpToInterval(IntervalToLfp(x, unit), unit) == Returned(Normalized(x, unit))
  {
    hide Normalized, UnitsToFraction, U32, NearestFraction, FractionToUnits, NearestUnits;
    var v := Normalized(x, unit);
    NormalForm(x, v, unit);
    UnitsToFractionExact(v.frac, unit);
    UnitsSurvive(v.frac, unit);
    var f := NearestFraction(v.frac, unit);
    var w := Wide(U32(v.sec), f);
    assert w == IntervalToLfp(x, unit);
    Wrap32(w.hi, 0);
    if !IsNeg(w) {
      FractionToUnitsExact(f, unit);
    } else {
      NegParts(w);
      var a := Neg(w);
      FractionToUnitsExact(a.lo, unit);
      NegatedBack(w, a, v, unit);
    }
  }

  lemma NegParts(w: Wide)
    ensures Neg(w).lo == if w.lo == 0 then 0 else TWO32 - w.lo
    ensures w.hi >= TWO31 ==> Neg(w).hi == if w.lo == 0 then TWO32 - w.hi else TWO32 - 1 - w.hi
  {
    hide U32;
    Wrap32(Not32(w.lo) + 1, if w.lo == 0 then 1 else 0);
    if w.hi >= TWO31 {
      Wrap32(Not32(w.hi) + Carry(w.lo == 0), 0);
    }
  }

  lemma NegatedBack(w: Wide, a: Wide, v: Interval, unit: Unit)
    requires w.hi == U32(v.sec) >= TWO31 && Normal(v, unit) && (w.lo == 0 <==> v.frac == 0)
    requires a.lo == (if w.lo == 0 then 0 else TWO32 - w.lo)
    requires a.hi == (if w.lo == 0 then TWO32 - w.hi else TWO32 - 1 - w.hi)
    requires NearestUnits(w.lo, unit) == v.frac && NearestUnits(TWO32 - w.lo, unit) == unit - v.frac
    ensures Normalized(Interval(-S32(a.hi), -NearestUnits(a.lo, unit)), unit)
         == Returned(v)
  {
    hide Normalized, U32, NearestUnits;
    Wrap32(a.hi, 0);
    NormalForm(Interval(-S32(a.hi), -NearestUnits(a.lo, unit)), Returned(v), unit);
  }

  /** So the trip is the identity on normal forms exactly above -2^31 seconds, that
      value excluded, and up to 2^31 seconds, that value included. */
  lemma IntervalRoundTrip(x: Interval, unit: Unit)
    ensures LfpToInterval(IntervalToLfp(x, unit), unit) == Normalized(x, unit)
        <==> -TWO31 * unit < Total(x, unit) <= TWO31 * unit
  {
    hide Normalized, LfpToInterval, IntervalToLfp;
    BackAgain(x, unit);
    var v := Normalized(x, unit);
    NormalForm(x, v, unit);
    SignedSeconds(v.sec);
    SecondsRange(v, unit);
  }

  lemma SignedSeconds(s: int)
    ensures InInt32(S32(s)) && (S32(s) == s <==> InInt32(s)) && (s == TWO31 ==> S32(s) == -TWO31)
  {
    hide U32;
    if -TWO31 <= s <= TWO31 {
      Wrap32(s, if s < 0 then -1 else 0);
    }
  }

  lemma SecondsRange(v: Interval, unit: Unit)
    requires Normal(v, unit)
    ensures -TWO31 * unit < Total(v, unit) <= TWO31 * unit
        <==> (InInt32(v.sec) && !(v.sec == -TWO31 && v.frac == 0)) || (v.sec == TWO31 && v.frac == 0)
  {
    CompareNormal(v, Interval(TWO31, 0), unit);
    CompareNormal(v, Interval(-TWO31, 0), unit);
  }

  /** The failing value is reachable: the lowest whole second changes sign. */
  lemma LowestSecond()
    ensures LfpToInterval(IntervalToLfp(Interval(-TWO31, 0), NANOSECONDS), NANOSECONDS) == Interval(TWO31, 0)
  {
    hide IntervalToLfp, LfpToInterval;
    BackAgain(Interval(-TWO31, 0), NANOSECONDS);
    SignedSeconds(-TWO31);
  }

  /** The other way round: any fixed-point number moves by e units of 2^-32, where
      2 |e| unit <= 2^32 + unit. */
  lemma LfpRoundTrip(w: Wide, unit: Unit) returns (e: int)
    ensures IntervalToLfp(LfpToInterval(w, unit), unit).Value() == U64(w.Value() + e)
    ensures Near(2 * e * unit, TWO32 + unit)
    ensures Near(e, if unit == NANOSECONDS then 2 else 2147)
  {
    hide LfpToInterval, IntervalToLfp, NearestFraction, Total, Gap, U64;
    var t := Total(LfpToInterval(w, unit), unit);
    var v, k := LfpTotal(w, unit);
    IntervalToLfpValue(LfpToInterval(w, unit), unit);
    var n := NearestFraction(t, unit);
    e := n - v;
    Turns(w.Value(), v, k, e);
    NearestFractionGap(t, unit);
    Triangle(n, v, t, unit);
  }

  lemma Turns(x: int, v: int, k: int, e: int)
    requires x == v + k * TWO64
    ensures U64(x + e) == U64(v + e)
  {
    assert x + e == v + e + k * TWO64;
    var q, r := (v + e) / TWO64, (v + e) % TWO64;
    assert v + e == TWO64 * q + r;
    DivModUnique(x + e, TWO64, q + k, r);
  }

  lemma Triangle(n: int, v: int, t: int, unit: Unit)
    requires Near(Gap(n, t, unit), unit) && Near(Gap(v, t, unit), TWO32)
    ensures Near(2 * (n - v) * unit, TWO32 + unit)
    ensures Near(n - v, if unit == NANOSECONDS then 2 else 2147)
  {
    assert 2 * (n - v) * unit == Gap(n, t, unit) - Gap(v, t, unit);
  }

  /** The total lies within half a unit of the number, up to whole turns of 2^64. */
  lemma LfpTotal(w: Wide, unit: Unit) returns (v: int, k: int)
    ensures w.Value() == v + k * TWO64
    ensures Near(Gap(v, Total(LfpToInterval(w, unit), unit), unit), TWO32)
  {
    hide Normalized, FractionToUnits, NearestUnits, Neg, U32;
    var neg := IsNeg(w);
    var a := if neg then Neg(w) else w;
    var m := NearestUnits(a.lo, unit);
    FractionToUnitsExact(a.lo, unit);
    NearestUnitsGap(a.lo, unit);
    SignedSeconds(a.hi);
    var s := S32(a.hi);
    GapOfSum(s, a.lo, m, unit);
    Wrap32(a.hi, 0);
    if neg {
      NormalForm(Interval(-s, -m), LfpToInterval(w, unit), unit);
      NegParts(w);
      v := -(s * TWO32 + a.lo);
      k := if s == -TWO31 then 0 else 1;
    } else {
      v, k := w.Value(), 0;
    }
  }

  lemma GapOfSum(s: int, f: int, m: int, unit: Unit)
    ensures Gap(s * TWO32 + f, s * unit + m, unit) == Gap(f, m, unit)
    ensures Gap(-(s * TWO32 + f), -(s * unit + m), unit) == -Gap(f, m, unit)
  {
  }

  /** The interval that comes out is normal unless the number is non-negative and its
      fraction rounds up to a whole second. */
  lemma LfpToIntervalNormal(w: Wide, unit: Unit)
    ensures Normal(LfpToInterval(w, unit), unit) <==> IsNeg(w) || (TWO32 - w.lo) * unit > TWO31
  {
    hide Normalized, FractionToUnits, Neg;
    if IsNeg(w) {
      var a := Neg(w);
      NormalForm(Interval(-S32(a.hi), -FractionToUnits(a.lo, unit)), LfpToInterval(w, unit), unit);
    } else {
      FractionToUnitsExact(w.lo, unit);
      var x := w.lo * unit + TWO31;
      assert x == TWO32 * (x / TWO32) + x % TWO32;
    }
  }

  /** The largest fraction comes out as a thousand million nanoseconds. */
  lemma WholeSecond()
    ensures LfpToInterval(Wide(0, 0xFFFF_FFFF), NANOSECONDS) == Interval(0, NANOSECONDS)
    ensures !Normal(LfpToInterval(Wide(0, 0xFFFF_FFFF), NANOSECONDS), NANOSECONDS)
  {
    var w := Wide(0, 0xFFFF_FFFF);
    FractionToUnitsExact(w.lo, NANOSECONDS);
    DivModUnique(w.lo * NANOSECONDS + TWO31, TWO32, NANOSECONDS, TWO31 - NANOSECONDS);
  }
}
