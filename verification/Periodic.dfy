/** Periodic extension of a value around a pivot, and the day-of-week searches
    built on it (libntp/ntp_calendar.c). */
module Periodic {
  import opened Words

  function Abs(x: int): nat { if x < 0 then -x else x }

  /** ntpcal_periodic_extend, in the unsigned words it computes with.  Negating
      INT32_MIN is undefined in C, so that cycle is not an input. */
  function Extend(pivot: int, value: int, cycle: int): int
    requires InInt32(pivot) && InInt32(value) && InInt32(cycle) && cycle != -TWO31
  {
    var c := Abs(cycle);
    if c <= 1 then pivot
    else
      var d := UnsignedGap(pivot, value) % c;
      if d == 0 then pivot
      else
        var cpl := (cycle < 0) != (value < pivot);
        Advance(pivot, if cpl then U32(c - d) else d, cycle < 0)
  }

  /** The bigger value minus the smaller, as unsigned words. */
  function UnsignedGap(pivot: int, value: int): u32
  {
    if value >= pivot then U32(U32(value) - U32(pivot)) else U32(U32(pivot) - U32(value))
  }

  /** pivot += diff, with diff negated first when the sign flag is set. */
  function Advance(pivot: int, diff: u32, neg: bool): int
  {
    S32(pivot + if neg then U32(Not32(diff) + 1) else diff)
  }

  /** What the function is documented to deliver: a number congruent to value
      in the period that starts at pivot and runs in the direction of cycle. */
  ghost predicate IsExtension(r: int, pivot: int, value: int, cycle: int)
    requires cycle != 0
  {
    && (r - value) % Abs(cycle) == 0
    && if cycle > 0 then pivot <= r < pivot + cycle else pivot + cycle < r <= pivot
  }

  /** The extension as an unbounded integer. */
  ghost function Exact(pivot: int, value: int, cycle: int): int
    requires cycle != 0
  {
    if cycle > 0 then pivot + (value - pivot) % cycle else pivot - (pivot - value) % -cycle
  }

  lemma ExactIsExtension(pivot: int, value: int, cycle: int)
    requires cycle != 0
    ensures IsExtension(Exact(pivot, value, cycle), pivot, value, cycle)
  {
    var c := Abs(cycle);
    if cycle > 0 {
      var q := (value - pivot) / c;
      assert Exact(pivot, value, cycle) - value == c * -q;
      DivModUnique(Exact(pivot, value, cycle) - value, c, -q, 0);
    } else {
      var q := (pivot - value) / c;
      assert Exact(pivot, value, cycle) - value == c * q;
      DivModUnique(Exact(pivot, value, cycle) - value, c, q, 0);
    }
  }

  lemma ExtensionUnique(r: int, s: int, pivot: int, value: int, cycle: int)
    requires cycle != 0
    requires IsExtension(r, pivot, value, cycle) && IsExtension(s, pivot, value, cycle)
    ensures r == s
  {
    var c := Abs(cycle);
    var i, j := (r - value) / c, (s - value) / c;
    assert r - value == c * i && s - value == c * j;
    assert r - s == c * (i - j);
    if i - j >= 1 {
      MulMono(c, 1, i - j);
    } else if i - j <= -1 {
      MulMono(c, i - j, -1);
    }
  }

  /** The flag-and-complement arithmetic equals the exact extension modulo 2^32. */
  lemma ExtendIsExact(pivot: int, value: int, cycle: int)
    requires InInt32(pivot) && InInt32(value) && InInt32(cycle) && cycle != -TWO31 && cycle != 0
    ensures Extend(pivot, value, cycle) == S32(Exact(pivot, value, cycle))
  {
    var c := Abs(cycle);
    SmallS32(pivot);
    GapIsDistance(pivot, value);
    ComplementMod(value - pivot, c);
    var d := Abs(value - pivot) % c;
    if c > 1 && d != 0 {
      Wrap32(c - d, 0);
      var d1 := if (cycle < 0) != (value < pivot) then c - d else d;
      AdvanceIsSum(pivot, d1, cycle < 0);
      assert Exact(pivot, value, cycle) == if cycle < 0 then pivot - d1 else pivot + d1;
    }
  }

  lemma AdvanceIsSum(pivot: int, diff: u32, neg: bool)
    requires diff != 0
    ensures Advance(pivot, diff, neg) == S32(if neg then pivot - diff else pivot + diff)
  {
    if neg {
      Wrap32(Not32(diff) + 1, 0);
      S32Shift(pivot - diff, 1);
    }
  }

  lemma SmallS32(x: int)
    requires InInt32(x)
    ensures S32(x) == x
  {
    Wrap32(x, if x < 0 then -1 else 0);
  }

  lemma S32Shift(x: int, k: int)
    ensures S32(x + k * TWO32) == S32(x)
  {
    var q := x / TWO32;
    Wrap32(x, q);
    Wrap32(x + k * TWO32, q + k);
  }

  lemma GapIsDistance(pivot: int, value: int)
    requires InInt32(pivot) && InInt32(value)
    ensures UnsignedGap(pivot, value) == Abs(value - pivot)
  {
    var i, j := if pivot < 0 then 1 else 0, if value < 0 then 1 else 0;
    Wrap32(pivot, -i);
    Wrap32(value, -j);
    Wrap32(U32(value) - U32(pivot), j - i + if value >= pivot then 0 else -1);
    Wrap32(U32(pivot) - U32(value), i - j + if value <= pivot then 0 else -1);
  }

  lemma ComplementMod(x: int, c: int)
    requires c > 0
    ensures (-x) % c == if x % c == 0 then 0 else c - x % c
  {
    var q, r := x / c, x % c;
    assert x == c * q + r;
    if r == 0 {
      DivModUnique(-x, c, -q, 0);
    } else {
      assert -x == c * (-q - 1) + (c - r);
      DivModUnique(-x, c, -q - 1, c - r);
    }
  }

  /** Both documented properties, and they pin the result down: whenever the one
      number that has them is an int32, that number is returned. */
  lemma ExtendCorrect(pivot: int, value: int, cycle: int, r: int)
    requires InInt32(pivot) && InInt32(value) && InInt32(cycle) && cycle != -TWO31 && cycle != 0
    requires InInt32(r)
    ensures Extend(pivot, value, cycle) == r && InInt32(Exact(pivot, value, cycle))
       <==> IsExtension(r, pivot, value, cycle)
  {
    var e := Exact(pivot, value, cycle);
    ExactIsExtension(pivot, value, cycle);
    ExtendIsExact(pivot, value, cycle);
    if InInt32(e) {
      SmallS32(e);
    }
    if IsExtension(r, pivot, value, cycle) {
      ExtensionUnique(r, e, pivot, value, cycle);
    }
  }

  // ------------------------------------------------------------ day of week

  function WeekdayGt(rdn: int, dow: int): int
    requires InInt32(rdn + 1) && InInt32(dow)
  { Extend(rdn + 1, dow, 7) }

  function WeekdayGe(rdn: int, dow: int): int
    requires InInt32(rdn) && InInt32(dow)
  { Extend(rdn, dow, 7) }

  function WeekdayClose(rdn: int, dow: int): int
    requires InInt32(rdn - 3) && InInt32(dow)
  { Extend(rdn - 3, dow, 7) }

  function WeekdayLe(rdn: int, dow: int): int
    requires InInt32(rdn) && InInt32(dow)
  { Extend(rdn, dow, -7) }

  function WeekdayLt(rdn: int, dow: int): int
    requires InInt32(rdn - 1) && InInt32(dow)
  { Extend(rdn - 1, dow, -7) }

  /** Day numbers on which weekday dow falls (dow taken modulo a week). */
  ghost predicate OnWeekday(day: int, dow: int) { (day - dow) % 7 == 0 }

  /** The least such day from start on, the greatest up to it, and the closest to it. */
  ghost predicate IsFirst(r: int, start: int, dow: int)
  {
    OnWeekday(r, dow) && r >= start && forall day :: OnWeekday(day, dow) && day >= start ==> day >= r
  }

  ghost predicate IsLast(r: int, start: int, dow: int)
  {
    OnWeekday(r, dow) && r <= start && forall day :: OnWeekday(day, dow) && day <= start ==> day <= r
  }

  ghost predicate IsClosest(r: int, start: int, dow: int)
  {
    OnWeekday(r, dow) && forall day :: OnWeekday(day, dow) ==> Abs(r - start) <= Abs(day - start)
  }

  // The searches find their day exactly when it is an int32.

  lemma WeekdayForward(rdn: int, dow: int)
    requires InInt32(rdn) && InInt32(dow)
    ensures IsFirst(WeekdayGe(rdn, dow), rdn, dow) <==> Exact(rdn, dow, 7) < TWO31
    ensures InInt32(rdn + 1) ==> (IsFirst(WeekdayGt(rdn, dow), rdn + 1, dow) <==> Exact(rdn + 1, dow, 7) < TWO31)
  {
    hide Extend;
    WeekSearch(rdn, dow, 7);
    if InInt32(rdn + 1) {
      WeekSearch(rdn + 1, dow, 7);
    }
  }

  lemma WeekdayBackward(rdn: int, dow: int)
    requires InInt32(rdn) && InInt32(dow)
    ensures IsLast(WeekdayLe(rdn, dow), rdn, dow) <==> Exact(rdn, dow, -7) >= -TWO31
    ensures InInt32(rdn - 1) ==> (IsLast(WeekdayLt(rdn, dow), rdn - 1, dow) <==> Exact(rdn - 1, dow, -7) >= -TWO31)
  {
    hide Extend;
    WeekSearch(rdn, dow, -7);
    if InInt32(rdn - 1) {
      WeekSearch(rdn - 1, dow, -7);
    }
  }

  lemma WeekdayClosest(rdn: int, dow: int)
    requires InInt32(rdn) && InInt32(rdn - 3) && InInt32(dow)
    ensures IsClosest(WeekdayClose(rdn, dow), rdn, dow) <==> Exact(rdn - 3, dow, 7) < TWO31
  {
    hide Extend, Exact, OnWeekday;
    WeekSearch(rdn - 3, dow, 7);
    var e := Exact(rdn - 3, dow, 7);
    forall day | OnWeekday(day, dow)
      ensures Abs(e - rdn) <= Abs(day - rdn)
    {
      WeekApart(day, e, dow);
    }
  }

  /** At the ends of the range the day sought is out of it, and the searches wrap around. */
  lemma WeekdayWraps()
    ensures !IsFirst(WeekdayGe(0x7fff_ffff, 0), 0x7fff_ffff, 0)
    ensures !IsLast(WeekdayLe(-0x8000_0000, 0), -0x8000_0000, 0)
    ensures !IsClosest(WeekdayClose(0x7fff_ffff, 2), 0x7fff_ffff, 2)
  {
    WeekdayForward(0x7fff_ffff, 0);
    WeekdayBackward(-0x8000_0000, 0);
    WeekdayClosest(0x7fff_ffff, 2);
    hide Extend;
  }

  /** The extension by a week either way is the day sought, or that day less (more) a
      whole turn of 2^32 when it does not fit. */
  lemma WeekSearch(start: int, dow: int, cycle: int)
    requires InInt32(start) && InInt32(dow) && (cycle == 7 || cycle == -7)
    ensures var e := Exact(start, dow, cycle);
            && OnWeekday(e, dow) && (if cycle == 7 then start <= e < start + 7 else start - 7 < e <= start)
            && (cycle == 7 ==> IsFirst(e, start, dow)) && (cycle == -7 ==> IsLast(e, start, dow))
            && Extend(start, dow, cycle) == if e >= TWO31 then e - TWO32 else if e < -TWO31 then e + TWO32 else e
  {
    var e := Exact(start, dow, cycle);
    ExactIsExtension(start, dow, cycle);
    ExtendIsExact(start, dow, cycle);
    forall day | OnWeekday(day, dow)
      ensures day == e || Abs(day - e) >= 7
    {
      WeekApart(day, e, dow);
    }
    hide Exact, Extend, U32, OnWeekday;
    Wrap32(e, if e >= 0 then 0 else -1);
  }

  lemma WeekApart(a: int, b: int, dow: int)
    requires OnWeekday(a, dow) && OnWeekday(b, dow)
    ensures a == b || Abs(a - b) >= 7
  {
  }
}
