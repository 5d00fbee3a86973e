/** libntp/clocktime.c: from a day of the year and a time of day to the NTP second
    nearest to a receive time stamp, in 32-bit arithmetic. */
module ClockSearch {
  import opened Words
  import opened Gregorian
  import opened DaySplit
  import opened Epoch
  import opened Dates
  import Periodic

  const CLOSETIME := 14400
  const NEARTIME := 15724800

  /** year_to_ntp */
  function YearToNtp(year: int): int { U32(U32(DaysInYears(year - 1) - DAY_NTP_STARTS + 1) * SECSPERDAY) }

  /** ntp_to_year: `now` is the current time, which unfolds the stamp. */
  function NtpToYear(ntp: u32, now: int): int
    requires InInt64(now)
  {
    SplitEraDays(Daysplit(NtpToNtp(ntp, now).Signed()).hi + DAY_NTP_STARTS - 1).hi + 1
  }

  /** Absolute difference of two stamps as the code takes it. */
  function WrappedDistance(a: int, b: int): int
  {
    var d := U32(a - b);
    if d >= TWO31 then U32(Not32(d) + 1) else d
  }

  /** The seconds into the year, in 32-bit arithmetic. */
  function YearOffset(yday: int, hour: int, minute: int, second: int, tzoff: int): int
  {
    S32(second + 60 * (minute + 60 * (hour + tzoff + 24 * (yday - 1))))
  }

  // ------------------------------------------------------------------ meaning

  /** The start of a year in NTP seconds, without wrap-around. */
  ghost function YearStart(year: int): int { (DaysInYears(year - 1) + 1 - DAY_NTP_STARTS) * SECSPERDAY }

  /** The instant a stamp denotes near `now`; the day count is 32 bits wide. */
  ghost function Instant(ntp: u32, now: int): int
    requires InInt64(now)
  {
    var s := Daysplit(NtpToNtp(ntp, now).Signed());
    s.hi * SECSPERDAY + s.lo
  }

  ghost function Distance(a: int, b: int): int { if a >= b then a - b else b - a }

  /** No year starts closer to t. */
  ghost predicate IsNearestYear(year: int, t: int)
  {
    forall z: int :: Distance(YearStart(year), t) <= Distance(YearStart(z), t)
  }

  /** The NTP second of a day of the year and a time of day, the years counted one by one. */
  ghost function Moment(year: int, yday: int, hour: int, minute: int, second: int): int
  {
    86400 * (CountedDays(year - 1) - CountedDays(1899) + yday - 1) + 3600 * hour + 60 * minute + second
  }

  lemma YearStartCounts(year: int)
    ensures YearStart(year) == 86400 * (CountedDays(year - 1) - CountedDays(1899))
  {
    hide DaysInYears, CountedDays;
    DaysInYearsCounts(year - 1);
    Epochs(1, 1);
  }

  lemma MomentInYear(year: int, yday: int, hour: int, minute: int, second: int)
    ensures Moment(year, yday, hour, minute, second)
         == YearStart(year) + 86400 * (yday - 1) + 3600 * hour + 60 * minute + second
  {
    hide YearStart, CountedDays;
    YearStartCounts(year);
  }

  /** The second t falls on day yday of the year, at time c. */
  ghost predicate FallsOn(t: int, year: int, yday: int, c: Time)
  {
    && SplitEraDays(t / 86400 + CountedDays(1899)) == YearSplit(year - 1, yday - 1, IsLeap(year))
    && Timesplit(t % 86400) == (0, c)
  }

  /** For a day within the year and a valid time of day, that second falls on just that day
      of that year, at that time; so says its date, too. */
  lemma MomentDate(year: int, yday: int, hour: int, minute: int, second: int)
    requires 1 <= yday <= YearLength(year) && ValidTime(Time(hour, minute, second))
    ensures var t := Moment(year, yday, hour, minute, second);
            && FallsOn(t, year, yday, Time(hour, minute, second))
            && (0 <= year <= 65535 ==>
                  var d := DateOfRd(t / 86400 + DateToRd(Date(1900, 1, 1, 1, 1)));
                  d.year == year && d.yearday == yday)
  {
    hide DaysInYears, CountedDays, IsLeap, SplitEraDays, Timesplit, SplitYearDays, DateToRd;
    var t, s := Moment(year, yday, hour, minute, second), 3600 * hour + 60 * minute + second;
    var days := CountedDays(year - 1) - CountedDays(1899) + yday - 1;
    DivModUnique(t, 86400, days, s);
    DaysInYearsCounts(year - 1);
    SplitEraDaysUnique(days + CountedDays(1899), year - 1, yday - 1);
    TimesplitCorrect(s);
    SameTime(Timesplit(s).1, Time(hour, minute, second));
    Epochs(1, 1);
  }

  lemma SameTime(a: Time, b: Time)
    requires ValidTime(a) && ValidTime(b) && TimeToSeconds(a) == TimeToSeconds(b)
    ensures a == b
  {
  }

  /** Wrapping the offset to 32 bits does not show in a stamp. */
  lemma OffsetWraps(start: int, yday: int, hour: int, minute: int, second: int, tzoff: int)
    ensures var x := 86400 * (yday - 1) + 3600 * (hour + tzoff) + 60 * minute + second;
            U32(start + YearOffset(yday, hour, minute, second, tzoff)) == U32(start + x)
  {
    hide U32, S32;
    var x := 86400 * (yday - 1) + 3600 * (hour + tzoff) + 60 * minute + second;
    assert YearOffset(yday, hour, minute, second, tzoff) == S32(x);
    S32Congruent(x);
    DropCyclesStep(start + S32(x), (x - S32(x)) / TWO32);
  }

  lemma OffsetTaken(rec: int, yday: int, hour: int, minute: int, second: int, tzoff: int)
    ensures var x := 86400 * (yday - 1) + 3600 * (hour + tzoff) + 60 * minute + second;
            U32(rec - YearOffset(yday, hour, minute, second, tzoff)) == U32(rec - x)
  {
    hide U32, S32;
    var x := 86400 * (yday - 1) + 3600 * (hour + tzoff) + 60 * minute + second;
    assert YearOffset(yday, hour, minute, second, tzoff) == S32(x);
    S32Congruent(x);
    DropCyclesStep(rec - x, (x - S32(x)) / TWO32);
  }

  /** The difference taken is the distance on the circle of 2^32 seconds: the least one
      over all turns. */
  lemma CircularDistance(a: int, b: int, k: int) returns (turns: int)
    ensures WrappedDistance(a, b) <= Distance(a - b, k * TWO32)
    ensures WrappedDistance(a, b) == Distance(a - b, turns * TWO32)
  {
    hide U32;
    var q := (a - b) / TWO32;
    Wrap32(a - b, q);
    var d := U32(a - b);
    turns := if d >= TWO31 then q + 1 else q;
    if d >= TWO31 {
      Wrap32(Not32(d) + 1, 0);
    }
  }

  // ------------------------------------------------------------------- search

  datatype Found = Found(stamp: int, yearstart: int, close: bool)

  /** clocktime: the cached year start, then the search over three years. */
  method Clocktime(yday: int, hour: int, minute: int, second: int, tzoff: int,
                   rec: u32, yearstart: nat, now: int) returns (r: Found)
    requires InInt64(now)
    ensures var x := 86400 * (yday - 1) + 3600 * (hour + tzoff) + 60 * minute + second;
            if yearstart != 0 && WrappedDistance(yearstart + x, rec) < 182 * 86400
            then r.stamp == U32(yearstart + x) && r.yearstart == yearstart
            else exists y :: IsNearestYear(y, Instant(U32(rec - x), now)) && r.yearstart == U32(YearStart(y))
                          && r.stamp == U32(Moment(y, yday, hour, minute, second) + 3600 * tzoff)
                          && (1 <= yday <= YearLength(y) && ValidTime(Time(hour, minute, second)) ==>
                                FallsOn(Moment(y, yday, hour, minute, second), y, yday, Time(hour, minute, second)))
    ensures 0 <= r.stamp < TWO32
    ensures r.close <==> WrappedDistance(r.stamp, rec) < 4 * 3600
  {
    hide U32, S32, NtpToNtp, IsNearestYear, YearStart, DaysInYears, SplitEraDays, Daysplit, YearOffset, Moment;
    hide FallsOn, ValidTime, YearLength;
    var off := YearOffset(yday, hour, minute, second, tzoff);
    ghost var x := 86400 * (yday - 1) + 3600 * (hour + tzoff) + 60 * minute + second;
    OffsetWraps(yearstart, yday, hour, minute, second, tzoff);
    OffsetWraps(yearstart - rec, yday, hour, minute, second, tzoff);
    OffsetTaken(rec, yday, hour, minute, second, tzoff);
    if yearstart != 0 {
      var test := U32(U32(yearstart) + off);
      U32Absorbs(yearstart, off);
      WrappedOperand(yearstart + off, rec);
      var diff := WrappedDistance(test, rec);
      if diff < NEARTIME {
        return Found(test, yearstart, diff < CLOSETIME);
      }
    }

    ghost var y;
    r, y := NearestYear(rec, off, now);
    OffsetWraps(YearStart(y), yday, hour, minute, second, tzoff);
    MomentInYear(y, yday, hour, minute, second);
    if 1 <= yday <= YearLength(y) && ValidTime(Time(hour, minute, second)) {
      MomentDate(y, yday, hour, minute, second);
    }
  }

  /** The search over the three years around the one of the receive time. */
  method NearestYear(rec: u32, off: int, now: int) returns (r: Found, ghost year: int)
    requires InInt64(now)
    ensures IsNearestYear(year, Instant(U32(rec - off), now))
    ensures r == Found(U32(YearStart(year) + off), U32(YearStart(year)), WrappedDistance(r.stamp, rec) < CLOSETIME)
  {
    hide U32, S32, NtpToNtp, IsNearestYear, YearStart, DaysInYears, SplitEraDays, Daysplit;
    var y := NtpToYear(U32(rec - off), now);
    var ystt, test, diff := new int[3], new int[3], new int[3];
    for idx := 0 to 3
      invariant forall k :: 0 <= k < idx ==>
        && ystt[k] == YearToNtp(y + k - 1) && test[k] == U32(ystt[k] + off)
        && diff[k] == WrappedDistance(test[k], rec)
    {
      ystt[idx] := YearToNtp(y + idx - 1);
      test[idx] := U32(ystt[idx] + off);
      diff[idx] := WrappedDistance(test[idx], rec);
    }
    var min := 1;
    for idx := 0 to 3
      invariant 0 <= min < 3
      invariant forall k :: 0 <= k < idx ==> diff[min] <= diff[k]
      invariant diff[min] <= diff[1]
    {
      if diff[idx] < diff[min] {
        min := idx;
      }
    }
    r := Found(test[min], ystt[min], diff[min] < CLOSETIME);
    assert diff[min] <= diff[0] && diff[min] <= diff[1] && diff[min] <= diff[2];
    SearchFindsNearest(rec, off, now, y, y + min - 1);
    YearToNtpWraps(y + min - 1);
    U32Absorbs(YearStart(y + min - 1), off);
    year := y + min - 1;
  }

  // --------------------------------------------------------------- properties

  lemma U32Absorbs(x: int, y: int)
    ensures U32(U32(x) + y) == U32(x + y)
  {
    DropCyclesStep(x + y, -(x / TWO32));
  }

  lemma WrappedOperand(x: int, rec: int)
    ensures WrappedDistance(U32(x), rec) == WrappedDistance(x, rec)
  {
    U32Absorbs(x, -rec);
  }

  lemma YearToNtpWraps(year: int)
    ensures YearToNtp(year) == U32(YearStart(year))
  {
    hide DaysInYears, U32;
    var d := DaysInYears(year - 1) + 1 - DAY_NTP_STARTS;
    Wrap32(d, d / TWO32);
    DropCyclesStep(d * SECSPERDAY, -(d / TWO32 * SECSPERDAY));
  }

  /** Within half a cycle the wrapped difference is the true one. */
  lemma ExactDistance(start: int, t: int, rec: int, off: int)
    requires U32(t) == U32(rec - off) && Distance(start, t) < TWO31
    ensures WrappedDistance(U32(U32(start) + off), rec) == Distance(start, t)
  {
    hide U32;
    U32Absorbs(start, off);
    WrappedOperand(start + off, rec);
    var k := (rec - off) / TWO32 - t / TWO32;
    Wrap32(t, t / TWO32);
    Wrap32(rec - off, (rec - off) / TWO32);
    DropCyclesStep(start - t, -k);
    var d := start - t;
    Wrap32(d, if d < 0 then -1 else 0);
    if d < 0 {
      Wrap32(Not32(d + TWO32) + 1, 0);
    }
  }

  /** The instant has the stamp as its low word and lies in the year found. */
  lemma InstantInYear(ntp: u32, now: int)
    requires InInt64(now)
    ensures var t, y := Instant(ntp, now), NtpToYear(ntp, now);
            U32(t) == ntp && YearStart(y) <= t < YearStart(y + 1)
  {
    hide U32, S32, S64, NtpToNtp, DaysInYears, SplitEraDays, IsLeap, Daysplit;
    var full := NtpToNtp(ntp, now).Signed();
    UnfoldedLowWord(ntp, now);
    LowBitsSurvive(full);
    var s := Daysplit(full);
    var split := SplitEraDays(s.hi + DAY_NTP_STARTS - 1);
    SplitEraDaysCorrect(s.hi + DAY_NTP_STARTS - 1);
    YearStep(split.hi);
  }

  lemma YearStartGap(year: int)
    ensures 365 * SECSPERDAY <= YearStart(year + 1) - YearStart(year) <= 366 * SECSPERDAY
  {
    hide DaysInYears, IsLeap;
    YearStep(year - 1);
  }

  lemma YearStartMonotone(y: int, z: int)
    requires y <= z
    ensures YearStart(z) - YearStart(y) >= 365 * SECSPERDAY * (z - y)
  {
    hide DaysInYears;
    YearsMonotone(y - 1, z - 1);
  }

  /** Comparing three wrapped distances finds the nearest start of all years. */
  lemma SearchFindsNearest(rec: u32, off: int, now: int, y: int, best: int)
    requires InInt64(now) && y == NtpToYear(U32(rec - off), now) && y - 1 <= best <= y + 1
    requires forall z :: y - 1 <= z <= y + 1 ==>
               WrappedDistance(U32(YearToNtp(best) + off), rec) <= WrappedDistance(U32(YearToNtp(z) + off), rec)
    ensures IsNearestYear(best, Instant(U32(rec - off), now))
  {
    hide U32, Instant, NtpToYear, YearStart, WrappedDistance, YearToNtp, IsNearestYear;
    var t := Instant(U32(rec - off), now);
    InstantInYear(U32(rec - off), now);
    YearStartGap(y);
    YearStartGap(y - 1);
    forall z | y - 1 <= z <= y + 1
      ensures WrappedDistance(U32(YearToNtp(z) + off), rec) == Distance(YearStart(z), t)
    {
      YearToNtpWraps(z);
      ExactDistance(YearStart(z), t, rec, off);
    }
    NearestOfTwo(y, best, t);
  }

  lemma NearestOfTwo(y: int, best: int, t: int)
    requires YearStart(y) <= t < YearStart(y + 1)
    requires Distance(YearStart(best), t) <= Distance(YearStart(y), t)
    requires Distance(YearStart(best), t) <= Distance(YearStart(y + 1), t)
    ensures IsNearestYear(best, t)
  {
    hide YearStart;
    forall z: int
      ensures Distance(YearStart(best), t) <= Distance(YearStart(z), t)
    {
      if z <= y {
        YearStartMonotone(z, y);
      } else {
        YearStartMonotone(y + 1, z);
      }
    }
  }

  /** The shortcut is sound: when the cached value is a year start within half a
      cycle of the wanted instant and its stamp is within 182 days of the receive
      time, it is the one nearest year start, so the full search would return the
      very same stamp. */
  lemma ShortcutAgrees(rec: u32, off: int, now: int, yearstart: nat, year: int, y: int)
    requires InInt64(now) && yearstart == U32(YearStart(year))
    requires Distance(YearStart(year), Instant(U32(rec - off), now)) < TWO31
    requires WrappedDistance(yearstart + off, rec) < NEARTIME
    requires IsNearestYear(y, Instant(U32(rec - off), now))
    ensures U32(yearstart + off) == U32(YearStart(y) + off)
  {
    hide U32, Instant, YearStart, WrappedDistance;
    var t := Instant(U32(rec - off), now);
    InstantInYear(U32(rec - off), now);
    ExactDistance(YearStart(year), t, rec, off);
    WrappedOperand(yearstart + off, rec);
    assert Distance(YearStart(y), t) <= Distance(YearStart(year), t);
    if y < year {
      YearStartMonotone(y, year);
      YearGapBound(year - y);
    } else if year < y {
      YearStartMonotone(year, y);
      YearGapBound(y - year);
    }
    U32Absorbs(YearStart(year), off);
  }

  lemma YearGapBound(n: int)
    requires n >= 1
    ensures 365 * SECSPERDAY * n > 2 * NEARTIME
  {
  }
}
