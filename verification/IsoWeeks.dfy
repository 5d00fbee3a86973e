/** The ISO 8601 week calendar of libntp/ntp_calendar.c: years converted to weeks
    and back by scaled linear interpolation within each century. */
module IsoWeeks {
  import opened Words
  import opened Gregorian
  import opened Periodic

  const CYCLE_WEEKS := 20871

  const YEAR_BIAS: seq<int> := [449, 157, 889, 597]
  const WEEK_BIAS: seq<int> := [85, 131, 17, 62]

  /** isocal_weeks_in_years */
  function WeeksInYears(years: int): int
  {
    var q := TruncDiv(years, 400);
    var r := TruncMod(years, 400);
    FloorFix(years, 400);
    if r < 0 then CycleWeeks(q - 1, r + 400) else CycleWeeks(q, r)
  }

  /** The part after the floor division: the second century is a week short. */
  function CycleWeeks(cycle: int, years: int): int
    requires 0 <= years < 400
  {
    var cents := years / 100;
    cycle * CYCLE_WEEKS + cents * 5218 - (if cents > 1 then 1 else 0) + YearsToWeeks(years % 100, cents)
  }

  /** The interpolation of one century. */
  function YearsToWeeks(years: int, cents: int): int
    requires 0 <= cents < 4
  {
    (years * 53431 + YEAR_BIAS[cents]) / 1024
  }

  /** isocal_split_eraweeks */
  function SplitEraWeeks(weeks: int): Split
  {
    var q := TruncDiv(weeks, CYCLE_WEEKS);
    var r := TruncMod(weeks, CYCLE_WEEKS);
    FloorFix(weeks, CYCLE_WEEKS);
    if r < 0 then SplitCycleWeeks((q - 1) * 400, r + CYCLE_WEEKS) else SplitCycleWeeks(q * 400, r)
  }

  function SplitCycleWeeks(years: int, weeks: int): Split
    requires 0 <= weeks < CYCLE_WEEKS
  {
    var lo := weeks + if weeks >= 10435 then 1 else 0;
    var cents := lo / 5218;
    var scaled := lo % 5218 * 157 + WEEK_BIAS[cents];
    Split(years + cents * 100 + scaled / 8192, scaled % 8192 / 157)
  }

  // ------------------------------------------- the interpolation, year by year

  /** The interpolated start of a year is within three days of the true one. */
  lemma YearDrift(y: int, c: int)
    requires 0 <= y < 100 && 0 <= c < 4
    ensures -3 <= 7 * YearsToWeeks(y, c) + 2 * c - (if c > 1 then 7 else 0) - 365 * y - y / 4 <= 3
  {
    if c == 0 {
    } else if c == 1 {
    } else if c == 2 {
    }
  }

  /** The inverse interpolation reaches year y exactly in the first week of it. */
  lemma YearInverse(y: int, c: int)
    requires 0 <= y < 100 && 0 <= c < 4
    ensures 0 <= 157 * YearsToWeeks(y, c) + WEEK_BIAS[c] - 8192 * y < 157
  {
    var k, e := (y * 183 + YEAR_BIAS[c]) / 1024, (y * 183 + YEAR_BIAS[c]) % 1024;
    LongYears(y, YEAR_BIAS[c], WEEK_BIAS[c], [12, 4, 24, 16][c], k, e);
    DivModUnique(y * 53431 + YEAR_BIAS[c], 1024, 52 * y + k, e);
  }

  /** Beyond 52 weeks a year, both interpolations keep to five weeks in 28 years. */
  lemma LongYears(y: int, up: int, down: int, a: int, k: int, e: int)
    requires 0 <= y < 100 && 0 <= 28 * up - 1024 * a < 628 && 4239 <= 157 * a + 28 * down <= 4296
    requires y * 183 + up == 1024 * k + e && 0 <= e < 1024
    ensures 0 <= 157 * k + down - 28 * y < 157
  {
    var f := 5 * y + a - 28 * k;
    assert 0 <= f < 28 by {
      assert 1024 * f == 28 * e - (4 * y + 28 * up - 1024 * a);
    }
    assert 28 * (157 * k + down - 28 * y) == y + 157 * a + 28 * down - 157 * f;
  }

  lemma CenturyEnds(c: int)
    requires 0 <= c < 4
    ensures YearsToWeeks(0, c) == 0 && YearsToWeeks(100, c) == 5218
    ensures WEEK_BIAS[c] < 157
  {
  }

  /** Every year is a cycle, a century and a year of the century. */
  lemma WeeksInYearsDigits(a: int, c: int, y: int)
    requires 0 <= c < 4 && 0 <= y < 100
    ensures WeeksInYears(400 * a + 100 * c + y)
         == a * CYCLE_WEEKS + c * 5218 - (if c > 1 then 1 else 0) + YearsToWeeks(y, c)
  {
    hide YearsToWeeks;
    var years := 400 * a + 100 * c + y;
    FloorFix(years, 400);
    DivModUnique(years, 400, a, 100 * c + y);
    DivModUnique(100 * c + y, 100, c, y);
  }

  // --------------------------------------------------------------- properties

  /** The ISO year after `years` elapsed ones starts on a Monday at most three
      days from 1 January of the corresponding Gregorian year. */
  lemma IsoYearStart(years: int)
    ensures -3 <= 7 * WeeksInYears(years) - DaysInYears(years) <= 3
  {
    hide DaysInYears, WeeksInYears, IsLeap, YearsToWeeks;
    var a, b, c, d := RadixOf(years);
    DaysInYearsRadix(a, b, c, d);
    WeeksInYearsDigits(a, b, 4 * c + d);
    YearDrift(4 * c + d, b);
    DivModUnique(4 * c + d, 4, c, d);
  }

  /** ... hence it is the Monday closest to that 1 January, which is also what
      the day-of-week search finds. */
  lemma IsoYearStartIsClosestMonday(years: int, monday: int)
    requires OnWeekday(monday, 1)
    ensures OnWeekday(7 * WeeksInYears(years) + 1, 1)
    ensures Abs(7 * WeeksInYears(years) + 1 - (DaysInYears(years) + 1)) <= Abs(monday - (DaysInYears(years) + 1))
    ensures InInt32(DaysInYears(years) - 2) && InInt32(7 * WeeksInYears(years) + 1) ==>
              WeekdayClose(DaysInYears(years) + 1, 1) == 7 * WeeksInYears(years) + 1
  {
    hide DaysInYears, WeeksInYears, Extend;
    var start, jan1 := 7 * WeeksInYears(years) + 1, DaysInYears(years) + 1;
    IsoYearStart(years);
    DivModUnique(start - 1, 7, WeeksInYears(years), 0);
    WeekApart(start, monday, 1);
    if InInt32(jan1 - 3) && InInt32(start) {
      ExtendCorrect(jan1 - 3, 1, 7, start);
    }
  }

  /** Each ISO year has 52 or 53 weeks. */
  lemma IsoYearLength(years: int)
    ensures 52 <= WeeksInYears(years + 1) - WeeksInYears(years) <= 53
  {
    hide DaysInYears, WeeksInYears, IsLeap;
    IsoYearStart(years);
    IsoYearStart(years + 1);
    YearStep(years);
  }

  /** Splitting weeks is the exact inverse of counting them: the year found is
      the one the week lies in, for every week number. */
  lemma SplitEraWeeksCorrect(weeks: int)
    ensures var s := SplitEraWeeks(weeks);
            && WeeksInYears(s.hi) + s.lo == weeks
            && 0 <= s.lo < WeeksInYears(s.hi + 1) - WeeksInYears(s.hi)
  {
    hide WeeksInYears, SplitCycleWeeks;
    FloorFix(weeks, CYCLE_WEEKS);
    SplitCycleWeeksCorrect(weeks / CYCLE_WEEKS, weeks % CYCLE_WEEKS);
  }

  lemma SplitCycleWeeksCorrect(cycle: int, weeks: int)
    requires 0 <= weeks < CYCLE_WEEKS
    ensures var s := SplitCycleWeeks(cycle * 400, weeks);
            && WeeksInYears(s.hi) + s.lo == cycle * CYCLE_WEEKS + weeks
            && 0 <= s.lo < WeeksInYears(s.hi + 1) - WeeksInYears(s.hi)
  {
    hide WeeksInYears, YearsToWeeks;
    var lo := weeks + if weeks >= 10435 then 1 else 0;
    var c, w := lo / 5218, lo % 5218;
    var y := YearOfWeek(w, c);
    WeeksInYearsDigits(cycle, c, y);
    NextYear(cycle, c, y);
    CenturyEnds(c);
  }

  /** The start of the following year, which may open the next century. */
  lemma NextYear(a: int, c: int, y: int)
    requires 0 <= c < 4 && 0 <= y < 100
    ensures WeeksInYears(400 * a + 100 * c + y + 1)
         == a * CYCLE_WEEKS + c * 5218 - (if c > 1 then 1 else 0)
            + YearsToWeeks(y + 1, c) - (if y == 99 && c == 1 then 1 else 0)
  {
    hide WeeksInYears, YearsToWeeks;
    CenturyEnds(c);
    if y < 99 {
      WeeksInYearsDigits(a, c, y + 1);
    } else if c < 3 {
      WeeksInYearsDigits(a, c + 1, 0);
      CenturyEnds(c + 1);
    } else {
      WeeksInYearsDigits(a + 1, 0, 0);
      CenturyEnds(0);
    }
  }

  /** Within a century the inverse interpolation finds the year and the week. */
  lemma YearOfWeek(w: int, c: int) returns (y: int)
    requires 0 <= w < (if c == 1 then 5217 else 5218) && 0 <= c < 4
    ensures y == (w * 157 + WEEK_BIAS[c]) / 8192 && 0 <= y < 100
    ensures (w * 157 + WEEK_BIAS[c]) % 8192 / 157 == w - YearsToWeeks(y, c)
    ensures YearsToWeeks(y, c) <= w < YearsToWeeks(y + 1, c)
  {
    hide YearsToWeeks;
    var scaled := w * 157 + WEEK_BIAS[c];
    y := scaled / 8192;
    CenturyEnds(c);
    YearInverse(y, c);
    var e := 157 * YearsToWeeks(y, c) + WEEK_BIAS[c] - 8192 * y;
    assert scaled % 8192 == 157 * (w - YearsToWeeks(y, c)) + e;
    DivModUnique(scaled % 8192, 157, w - YearsToWeeks(y, c), e);
    if y < 99 {
      YearInverse(y + 1, c);
    }
  }

  lemma SplitEraWeeksUnique(weeks: int, y: int, k: int)
    requires WeeksInYears(y) + k == weeks && 0 <= k < WeeksInYears(y + 1) - WeeksInYears(y)
    ensures SplitEraWeeks(weeks) == Split(y, k)
  {
    hide WeeksInYears, SplitEraWeeks;
    var s := SplitEraWeeks(weeks);
    SplitEraWeeksCorrect(weeks);
    if y < s.hi {
      WeeksMonotone(y + 1, s.hi);
    } else if s.hi < y {
      WeeksMonotone(s.hi + 1, y);
    }
  }

  lemma {:induction false} WeeksMonotone(y: int, z: int)
    requires y <= z
    ensures WeeksInYears(z) - WeeksInYears(y) >= 52 * (z - y)
    decreases z - y
  {
    hide WeeksInYears;
    if y < z {
      WeeksMonotone(y, z - 1);
      IsoYearLength(z - 1);
    }
  }
}
