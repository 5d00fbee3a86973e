/** Splitting 64-bit seconds into days and seconds, and joining them again
    (libntp/ntp_calendar.c): the scalar branches, and the branches for machines
    without 64-bit integers, which work on 32-bit limbs. */
module DaySplit {
  import opened Words
  import opened Gregorian
  import Periodic

  const SECSPERDAY := 86400

  /** ntpcal_daysplit with 64-bit scalars.  The day count is an int32. */
  function Daysplit(ts: int): (s: Split)
    ensures s.hi == S32(ts / SECSPERDAY)
    ensures s.lo == ts % SECSPERDAY
  {
    FloorFix(ts, SECSPERDAY);
    var lo := TruncMod(ts, SECSPERDAY);
    var hi := S32(TruncDiv(ts, SECSPERDAY));
    S32Pred(TruncDiv(ts, SECSPERDAY));
    if lo < 0 then Split(S32(hi - 1), lo + SECSPERDAY) else Split(hi, lo)
  }

  /** ntpcal_dayjoin with 64-bit scalars. */
  function Dayjoin(days: int, secs: int): int { S64(days * SECSPERDAY + secs) }

  lemma S32Pred(x: int)
    ensures S32(S32(x) - 1) == S32(x - 1)
  {
    var k := (x - S32(x)) / TWO32;
    S32Congruent(x);
    Periodic.S32Shift(S32(x) - 1, k);
  }

  lemma S32Congruent(x: int)
    ensures x == S32(x) + (x - S32(x)) / TWO32 * TWO32
  {
    var k := x / TWO32 + if U32(x) >= TWO31 then 1 else 0;
    DivModUnique(x - S32(x), TWO32, k, 0);
  }

  // ------------------------------------------------------------- limb division

  /** ntpcal_daysplit without 64-bit scalars: divide by 128 with shifts, then by
      675 with two chained 32-by-16-bit divisions. */
  method DaysplitLimbs(ts: Wide) returns (res: Split)
    ensures res == Split(S32(ts.Signed() / SECSPERDAY), ts.Signed() % SECSPERDAY)
    ensures res == Daysplit(ts.Signed())
  {
    hide U32, S32, S64, BitAnd, BitOr, Neg, Limb7;
    var op := ts;
    var isneg := IsNeg(op);
    if isneg {
      op := Neg(op);
    }
    ghost var size := op.Value();
    MagnitudeOf(ts, size);
    BitAndMask(op.lo, 7);
    Pow2Values();
    var r: u32 := BitAnd(op.lo, 127);
    op := Wide(op.hi / 128, ShiftSevenLow(op));

    var q, a, quo := DivideBy675(op);
    r := Limb7(a, r);
    assert size == SECSPERDAY * quo + r && r < SECSPERDAY;
    SignedQuotient(ts.Signed(), size, quo, r);
    if isneg {
      if r != 0 {
        r := SECSPERDAY - r;
        q := Not32(q);
      } else {
        q := U32(Not32(q) + 1);
      }
    }
    res := Split(S32(q), r);
  }

  /** The division loop, unrolled: quotient modulo 2^32 and remainder. */
  method DivideBy675(op: Wide) returns (q: u32, a: u32, ghost quo: int)
    ensures op.Value() == 675 * quo + a && a < 675 && q == U32(quo)
  {
    hide U32, Limb;
    a := op.hi;
    if a > 675 {
      a := a % 675;
    }
    ghost var top := a;
    if a != 0 {
      a := Limb(a, op.lo / 65536);
      q := a / 675;
      a := a % 675;
      ghost var q1, a1 := q, a;

      Wrap32(a * 65536 + op.lo % 65536, 0);
      a := Limb(a, op.lo % 65536);
      q := Limb(q, a / 675);
      quo := ChainedDivision(top, op.lo, q1, a1, a, q);
    } else {
      a := op.lo;
      q := a / 675;
      quo := q;
      Wrap32(q, 0);
    }
    a := a % 675;
    quo := DropCycles(op.hi, op.lo, top, quo, a);
  }

  /** (lo >> 7) | (hi << 25) */
  function ShiftSevenLow(op: Wide): (lo: u32)
    ensures lo == op.lo / 128 + op.hi % 128 * 0x200_0000
  {
    ShiftSevenWords(op);
    BitOr(op.lo / 128, U32(op.hi * 0x200_0000))
  }

  lemma ShiftSevenWords(op: Wide)
    ensures BitOr(op.lo / 128, U32(op.hi * 0x200_0000)) == op.lo / 128 + op.hi % 128 * 0x200_0000
  {
    Wrap32(op.hi * 0x200_0000, op.hi / 128);
    var up := op.hi % 128 * 0x200_0000;
    Pow2Values();
    DivModUnique(up, 0x200_0000, op.hi % 128, 0);
    BitOrDisjoint(up, op.lo / 128, 25);
    BitOrCommutes(up, op.lo / 128);
  }

  /** (a << 16) | b for a 16-bit b. */
  function Limb(a: u32, b: u32): (x: u32)
    requires b < 65536
    ensures x == U32(a * 65536) + b == U32(a * 65536 + b)
  {
    LimbWords(a, b);
    BitOr(U32(a * 65536), b)
  }

  lemma LimbWords(a: u32, b: u32)
    requires b < 65536
    ensures BitOr(U32(a * 65536), b) == U32(a * 65536) + b == U32(a * 65536 + b)
  {
    hide U32, BitOr;
    var q := a / 65536;
    Wrap32(a * 65536, q);
    Wrap32(a * 65536 + b, q);
    Pow2Values();
    hide Pow2;
    DivModUnique(U32(a * 65536), 65536, a - q * 65536, 0);
    BitOrDisjoint(U32(a * 65536), b, 16);
  }

  /** r | (a << 7) for a 7-bit r. */
  function Limb7(a: u32, r: u32): (x: u32)
    requires r < 128 && a < 675
    ensures x == a * 128 + r
  {
    Wrap32(a * 128, 0);
    Pow2Values();
    DivModUnique(a * 128, 128, a, 0);
    BitOrDisjoint(a * 128, r, 7);
    BitOrCommutes(a * 128, r);
    BitOr(r, U32(a * 128))
  }

  /** The sign-fixed magnitude of a two's complement value. */
  lemma MagnitudeOf(ts: Wide, size: int)
    requires size == if IsNeg(ts) then Neg(ts).Value() else ts.Value()
    ensures ts.Signed() == if IsNeg(ts) then -size else size
  {
    hide Neg;
    IsNegIsSign(ts);
    if IsNeg(ts) {
      Wrap64(-ts.Value(), -1);
    }
  }

  lemma ChainedDivision(top: u32, lo: u32, q1: u32, a1: u32, a2: u32, q: u32) returns (quo: int)
    requires top <= 675
    requires q1 == U32(top * 65536 + lo / 65536) / 675 && a1 == U32(top * 65536 + lo / 65536) % 675
    requires a2 == U32(a1 * 65536 + lo % 65536)
    requires q == U32(q1 * 65536 + a2 / 675)
    ensures top * TWO32 + lo == 675 * quo + a2 % 675 && q == U32(quo)
  {
    hide U32;
    var x := top * 65536 + lo / 65536;
    Wrap32(x, 0);
    Wrap32(a1 * 65536 + lo % 65536, 0);
    quo := q1 * 65536 + a2 / 675;
    assert x == 675 * q1 + a1;
    assert top * TWO32 + lo == 65536 * x + lo % 65536;
    assert a2 == 675 * (a2 / 675) + a2 % 675;
  }

  /** Reducing the top limb modulo 675 drops multiples of 2^32 from the quotient. */
  lemma DropCycles(hi: u32, lo: u32, top: u32, x: int, a: u32) returns (quo: int)
    requires top == if hi > 675 then hi % 675 else hi
    requires top * TWO32 + lo == 675 * x + a
    ensures hi * TWO32 + lo == 675 * quo + a && U32(quo) == U32(x)
  {
    hide U32;
    var m := if hi > 675 then hi / 675 else 0;
    assert hi == 675 * m + top;
    DropCyclesStep(x, m);
    quo := x + m * TWO32;
  }

  lemma DropCyclesStep(x: int, m: int)
    ensures U32(x + m * TWO32) == U32(x)
  {
    Wrap32(x + m * TWO32, x / TWO32 + m);
  }

  lemma SignedQuotient(ts: int, size: int, quo: int, r: int)
    requires size == SECSPERDAY * quo + r && 0 <= r < SECSPERDAY
    requires ts == size || ts == -size
    ensures ts == size ==> S32(U32(quo)) == S32(ts / SECSPERDAY) && r == ts % SECSPERDAY
    ensures ts == -size && r != 0 ==>
              S32(Not32(U32(quo))) == S32(ts / SECSPERDAY) && SECSPERDAY - r == ts % SECSPERDAY
    ensures ts == -size && r == 0 ==>
              S32(U32(Not32(U32(quo)) + 1)) == S32(ts / SECSPERDAY) && 0 == ts % SECSPERDAY
  {
    NotIsNegation(quo);
    if ts == size {
      DivModUnique(ts, SECSPERDAY, quo, r);
    }
    if ts == -size {
      DivModUnique(ts, SECSPERDAY, if r != 0 then -quo - 1 else -quo, if r != 0 then SECSPERDAY - r else 0);
    }
  }

  lemma NotIsNegation(x: int)
    ensures U32(Not32(U32(x))) == U32(-x - 1)
    ensures U32(Not32(U32(x)) + 1) == U32(-x)
    ensures U32(U32(x)) == U32(x)
  {
    var k := x / TWO32;
    Wrap32(-x - 1, -k - 1);
    DropCyclesStep(Not32(U32(x)) + 1, -k - 1);
    Wrap32(Not32(U32(x)), 0);
    Wrap32(U32(x), 0);
  }

  // ------------------------------------------------------- limb multiplication

  /** ntpcal_dayjoin without 64-bit scalars, on a two's complement machine:
      multiply by 675 in 16-bit halves, shift by 7, fix the sign, add seconds.
      It is the exact product and sum for every day count but INT32_MIN, whose
      negation is not an int32. */
  method DayjoinLimbs(days: int, secs: int) returns (res: Wide)
    requires InInt32(days) && InInt32(secs)
    ensures res.Value() == U64(days * SECSPERDAY + secs) <==> days != -TWO31
    ensures days != -TWO31 ==> res.Signed() == Dayjoin(days, secs)
  {
    hide U32, S32, U64, Add, Neg, Times128;
    var isneg := days < 0;
    var n := if isneg then S32(-days) else days;
    AbsOrMin(days);

    var p1: int := U32(n / 65536 * 675);
    res := Add(Wide(0, U32(n % 65536 * 675)), Wide(p1 / 65536, U32(p1 * 65536)));
    ProductOf675(n, res, p1);
    res := Times128(res);
    if isneg {
      res := Neg(res);
    }
    var addend := Wide(0, U32(secs));
    if secs < 0 {
      addend := Neg(Wide(0, U32(-secs)));
    }
    SignExtend(secs, addend);
    ghost var product := res;
    res := Add(res, addend);
    JoinSum(days, secs, product, addend, res);
    S64OfU64(days * SECSPERDAY + secs);
  }

  /** Shift left by seven across the two words. */
  function Times128(v: Wide): (s: Wide)
    ensures s.Value() == U64(128 * v.Value())
  {
    Times128Words(v);
    Wide(BitOr(U32(v.hi * 128), v.lo / 0x200_0000), U32(v.lo * 128))
  }

  lemma Times128Words(v: Wide)
    ensures BitOr(U32(v.hi * 128), v.lo / 0x200_0000) < TWO32
    ensures BitOr(U32(v.hi * 128), v.lo / 0x200_0000) * TWO32 + U32(v.lo * 128) == U64(128 * v.Value())
  {
    hide BitOr, U32, U64;
    var k, l := v.hi / 0x200_0000, v.lo / 0x200_0000;
    Wrap32(v.hi * 128, k);
    Wrap32(v.lo * 128, l);
    Pow2Values();
    DivModUnique(U32(v.hi * 128), 128, v.hi - k * 0x200_0000, 0);
    BitOrDisjoint(U32(v.hi * 128), l, 7);
    Wrap64(128 * v.Value(), k);
  }

  lemma AbsOrMin(days: int)
    requires InInt32(days)
    ensures S32(-days) == if days == -TWO31 then -TWO31 else -days
  {
  }

  /** The halves give 675 * n for a non-negative n, and for INT32_MIN the product
      with the halves of its unsigned reading. */
  lemma ProductOf675(n: int, res: Wide, p1: u32)
    requires 0 <= n < TWO31 || n == -TWO31
    requires p1 == U32(n / 65536 * 675)
    requires res.Value() == U64(Wide(0, U32(n % 65536 * 675)).Value() + Wide(p1 / 65536, U32(p1 * 65536)).Value())
    ensures n >= 0 ==> res.Value() == 675 * n
    ensures n < 0 ==> res.Value() == 65198 * TWO32 + TWO31
  {
    hide U32, U64;
    Wrap32(n % 65536 * 675, 0);
    Wrap32(n / 65536 * 675, if n < 0 then -1 else 0);
    Wrap32(p1 * 65536, p1 / 65536);
    Wrap64(n % 65536 * 675 + p1 * 65536, 0);
  }

  lemma SignExtend(secs: int, addend: Wide)
    requires InInt32(secs)
    requires addend.Value() == if secs < 0 then U64(-U32(-secs)) else U32(secs)
    ensures addend.Value() == U64(secs)
  {
    Wrap32(-secs, if secs <= 0 then 0 else -1);
    Wrap32(secs, if secs >= 0 then 0 else -1);
    Wrap64(secs, if secs >= 0 then 0 else -1);
  }

  lemma JoinSum(days: int, secs: int, product: Wide, addend: Wide, sum: Wide)
    requires InInt32(days) && InInt32(secs)
    requires days >= 0 ==> product.Value() == U64(128 * (675 * days))
    requires -TWO31 < days < 0 ==> product.Value() == U64(-U64(128 * (675 * -days)))
    requires days == -TWO31 ==> product.Value() == U64(-U64(128 * (65198 * TWO32 + TWO31)))
    requires addend.Value() == U64(secs) && sum.Value() == U64(product.Value() + addend.Value())
    ensures sum.Value() == U64(days * SECSPERDAY + secs) <==> days != -TWO31
  {
    hide U64;
    U64Sum(product.Value(), secs);
    if days != -TWO31 {
      if days < 0 {
        U64Neg(128 * (675 * -days));
      }
      U64Sum(days * SECSPERDAY, secs);
    } else {
      U64Neg(128 * (65198 * TWO32 + TWO31));
      U64Sum(-128 * (65198 * TWO32 + TWO31), secs);
      assert sum.Value() == U64(secs - 128 * (65198 * TWO32 + TWO31));
      Wrap64(secs - 128 * (65198 * TWO32 + TWO31), -1);
      Wrap64(days * SECSPERDAY + secs, -1);
    }
  }

  /** Splitting undoes joining for every day count and second of the day, and
      joining undoes splitting exactly when the day count fits an int32. */
  lemma JoinSplitInverse(days: int, secs: int, ts: int)
    requires InInt32(days) && 0 <= secs < SECSPERDAY && InInt64(ts)
    ensures Daysplit(Dayjoin(days, secs)) == Split(days, secs)
    ensures Dayjoin(Daysplit(ts).hi, Daysplit(ts).lo) == ts <==> InInt32(ts / SECSPERDAY)
  {
    hide S32, S64, Daysplit;
    var t := days * SECSPERDAY + secs;
    SmallS64(t);
    DivModUnique(t, SECSPERDAY, days, secs);
    Periodic.SmallS32(days);
    var d := Daysplit(ts);
    S32Range(ts / SECSPERDAY);
    SmallS64(d.hi * SECSPERDAY + d.lo);
    assert ts == ts / SECSPERDAY * SECSPERDAY + ts % SECSPERDAY;
    if InInt32(ts / SECSPERDAY) {
      Periodic.SmallS32(ts / SECSPERDAY);
    }
  }

  lemma S32Range(x: int)
    ensures InInt32(S32(x))
  {
  }

  lemma SmallS64(x: int)
    requires InInt64(x)
    ensures S64(x) == x
  {
  }

  lemma S64OfU64(x: int)
    ensures S64(U64(x)) == S64(x)
  {
  }
}
