/** The proleptic Gregorian calendar of libntp/ntp_calendar.c, in elapsed years,
    months and days.  Year numbers may be negative throughout. */
module Gregorian {
  import opened Words

  const CYCLE_DAYS := 146097
  const CENTURY_DAYS := 36524
  const LEAP_CYCLE_DAYS := 1461

  /** ntpcal_split, plus the leap flag that split_eradays stores through its
      second argument. */
  datatype Split = Split(hi: int, lo: int)
  datatype YearSplit = YearSplit(hi: int, lo: int, leap: bool)

  // ------------------------------------------------------- reference calendar

  /** The leap rule, as the calendar states it. */
  predicate IsLeap(year: int) { year % 4 == 0 && (year % 100 != 0 || year % 400 == 0) }

  function YearLength(year: int): int { if IsLeap(year) then 366 else 365 }

  /** Days in the first `years` years of the era, counted one year at a time;
      negative counts run backward from the start of year 1. */
  function CountedDays(years: int): int
    decreases if years < 0 then -years else years
  {
    if years == 0 then 0
    else if years > 0 then CountedDays(years - 1) + YearLength(years)
    else CountedDays(years + 1) - YearLength(years + 1)
  }

  function MonthLength(month: int, leap: bool): int
    requires 0 <= month < 12
  {
    if month == 1 then (if leap then 29 else 28)
    else if month in {3, 5, 8, 10} then 30 else 31
  }

  // ------------------------------------------------------------ source code

  /** The macro is_leapyear, with C's remainder. */
  predicate MacroIsLeap(y: int)
  {
    TruncMod(y, 4) == 0 && !(TruncMod(y, 100) == 0 && TruncMod(y, 400) != 0)
  }

  /** ntpcal_days_in_years */
  function DaysInYears(years: int): int
  {
    var cycle := TruncDiv(years, 400);
    var rest := TruncMod(years, 400);
    var fixed := if rest < 0 then Split(cycle - 1, rest + 400) else Split(cycle, rest);
    fixed.hi * CYCLE_DAYS + fixed.lo * 365 + fixed.lo / 4 - fixed.lo / 100
  }

  /** ntpcal_split_eradays */
  function SplitEraDays(days: int): YearSplit
  {
    var q := TruncDiv(days, CYCLE_DAYS);
    var r := TruncMod(days, CYCLE_DAYS);
    if r < 0 then SplitCycle(q - 1, r + CYCLE_DAYS) else SplitCycle(q, r)
  }

  /** The part of split_eradays that follows the floor division. */
  function SplitCycle(n400: int, cycleDay: int): YearSplit
    requires 0 <= cycleDay < CYCLE_DAYS
  {
    var n100 := cycleDay / CENTURY_DAYS;
    var d100 := cycleDay % CENTURY_DAYS;
    var n004 := d100 / LEAP_CYCLE_DAYS;
    var d004 := d100 % LEAP_CYCLE_DAYS;
    var n001 := d004 / 365;
    var yday := d004 % 365;
    Assembled(n400, n100, n004, n001, yday)
  }

  function Assembled(n400: int, n100: nat, n004: int, n001: nat, yday: int): YearSplit
  {
    if BitOr(n001, n100) > 3
    then YearSplit(((4 * n400 + n100) * 25 + n004) * 4 + n001 - 1, yday + 365, true)
    else YearSplit(((4 * n400 + n100) * 25 + n004) * 4 + n001, yday,
                   n001 == 3 && (n004 != 24 || n100 == 3))
  }

  const REGULAR_MONTHS: seq<int> := [0, 31, 59, 90, 120, 151, 181, 212, 243, 273, 304, 334, 365]
  const LEAP_MONTHS: seq<int> := [0, 31, 60, 91, 121, 152, 182, 213, 244, 274, 305, 335, 366]
  const SHIFTED_MONTHS: seq<int> := [0, 31, 61, 92, 122, 153, 184, 214, 245, 275, 306, 337, 366]

  /** A row of real_month_table. */
  function MonthTable(leap: bool): (t: seq<int>)
    ensures |t| == 13
  { if leap then LEAP_MONTHS else REGULAR_MONTHS }

  /** ntpcal_split_yeardays: guess the month as day / 32, correct it by one. */
  function SplitYearDays(eyd: int, leap: bool): Split
  {
    var lt := MonthTable(leap);
    if 0 <= eyd < lt[12] then
      var guess := eyd / 32;
      var month := if lt[guess + 1] <= eyd then guess + 1 else guess;
      Split(month, eyd - lt[month])
    else Split(-1, -1)
  }

  /** ntpcal_days_in_months: months counted from March, so that no leap flag is
      needed; the result is relative to the start of the year after. */
  function DaysInMonths(m: int): Split
  {
    var q := TruncDiv(m, 12);
    var r := TruncMod(m, 12);
    var n := if 0 <= m < 12 then Split(0, m) else if r < 0 then Split(q - 1, r + 12) else Split(q, r);
    var s := if n.lo < 2 then Split(n.hi, n.lo + 10) else Split(n.hi + 1, n.lo - 2);
    NormalMonth(m);
    Split(s.hi, SHIFTED_MONTHS[s.lo] - 306)
  }

  /** ntpcal_edate_to_eradays */
  function EdateToEraDays(years: int, mons: int, mdays: int): int
  {
    if mons != 0 then
      DaysInYears(years + DaysInMonths(mons).hi) + DaysInMonths(mons).lo + mdays
    else DaysInYears(years) + mdays
  }

  /** ntpcal_edate_to_yeardays */
  function EdateToYearDays(years: int, mons: int, mdays: int): int
  {
    if 0 <= mons < 12 then mdays + MonthTable(MacroIsLeap(years + 1))[mons]
    else mdays + DaysInMonths(mons).lo + DaysInYears(years + DaysInMonths(mons).hi) - DaysInYears(years)
  }

  // -------------------------------------------------------------- properties

  lemma NormalMonth(m: int)
    ensures var q := TruncDiv(m, 12);
            var r := TruncMod(m, 12);
            (if 0 <= m < 12 then Split(0, m) else if r < 0 then Split(q - 1, r + 12) else Split(q, r))
            == Split(m / 12, m % 12)
  {
    FloorFix(m, 12);
  }

  lemma MacroIsLeapRule(y: int)
    ensures MacroIsLeap(y) == IsLeap(y)
  {
    FloorFix(y, 4);
    FloorFix(y, 100);
    FloorFix(y, 400);
  }

  /** DaysInYears in the mixed radix 400, 100, 4, 1. */
  lemma DaysInYearsRadix(a: int, b: int, c: int, d: int)
    requires 0 <= b < 4 && 0 <= c < 25 && 0 <= d < 4
    ensures DaysInYears(((4 * a + b) * 25 + c) * 4 + d)
         == a * CYCLE_DAYS + b * CENTURY_DAYS + c * LEAP_CYCLE_DAYS + d * 365
  {
    var y := ((4 * a + b) * 25 + c) * 4 + d;
    var r := 100 * b + 4 * c + d;
    FloorFix(y, 400);
    DivModUnique(y, 400, a, r);
    DivModUnique(r, 4, 25 * b + c, d);
    DivModUnique(r, 100, b, 4 * c + d);
  }

  /** Every year number has such digits, and the leap rule in terms of them. */
  lemma RadixOf(y: int) returns (a: int, b: int, c: int, d: int)
    ensures 0 <= b < 4 && 0 <= c < 25 && 0 <= d < 4 && y == ((4 * a + b) * 25 + c) * 4 + d
    ensures IsLeap(y + 1) <==> d == 3 && (c != 24 || b == 3)
  {
    hide IsLeap;
    a := y / 400;
    var r := y - 400 * a;
    b := r / 100;
    c := (r - 100 * b) / 4;
    d := r - 100 * b - 4 * c;
    LeapOfDigits(a, b, c, d);
  }

  lemma LeapOfDigits(a: int, b: int, c: int, d: int)
    requires 0 <= b < 4 && 0 <= c < 25 && 0 <= d < 4
    ensures IsLeap(((4 * a + b) * 25 + c) * 4 + d + 1) <==> d == 3 && (c != 24 || b == 3)
  {
    var y := ((4 * a + b) * 25 + c) * 4 + d + 1;
    assert y == 400 * a + 100 * b + 4 * c + d + 1;
  }

  /** Each year contributes its length. */
  lemma YearStep(y: int)
    ensures DaysInYears(y + 1) == DaysInYears(y) + YearLength(y + 1)
  {
    hide DaysInYears, IsLeap;
    var a, b, c, d := RadixOf(y);
    DaysInYearsRadix(a, b, c, d);
    if d < 3 {
      DaysInYearsRadix(a, b, c, d + 1);
    } else if c < 24 {
      DaysInYearsRadix(a, b, c + 1, 0);
    } else if b < 3 {
      DaysInYearsRadix(a, b + 1, 0, 0);
    } else {
      DaysInYearsRadix(a + 1, 0, 0, 0);
    }
  }

  /** The closed form counts exactly the days of the calendar's years. */
  lemma {:induction false} DaysInYearsCounts(y: int)
    ensures DaysInYears(y) == CountedDays(y)
    decreases if y < 0 then -y else y
  {
    if y == 0 {
      DaysInYearsRadix(0, 0, 0, 0);
    } else if y > 0 {
      YearStep(y - 1);
      DaysInYearsCounts(y - 1);
    } else {
      YearStep(y);
      DaysInYearsCounts(y + 1);
    }
  }

  lemma {:induction false} YearsMonotone(y: int, z: int)
    requires y <= z
    ensures DaysInYears(z) - DaysInYears(y) >= 365 * (z - y)
    decreases z - y
  {
    hide DaysInYears, IsLeap;
    if y < z {
      YearsMonotone(y, z - 1);
      YearStep(z - 1);
    }
  }

  /** Cycle splitting finds the year the day lies in, for every day count: the
      overflow days of leap years and of 400-year cycles included. */
  lemma SplitEraDaysCorrect(days: int)
    ensures var s := SplitEraDays(days);
            && DaysInYears(s.hi) + s.lo == days
            && 0 <= s.lo < YearLength(s.hi + 1)
            && s.leap == IsLeap(s.hi + 1)
  {
    hide DaysInYears, SplitCycle, IsLeap;
    FloorFix(days, CYCLE_DAYS);
    SplitCycleCorrect(days / CYCLE_DAYS, days % CYCLE_DAYS);
  }

  lemma SplitCycleCorrect(n400: int, cycleDay: int)
    requires 0 <= cycleDay < CYCLE_DAYS
    ensures var s := SplitCycle(n400, cycleDay);
            && DaysInYears(s.hi) + s.lo == n400 * CYCLE_DAYS + cycleDay
            && 0 <= s.lo < YearLength(s.hi + 1)
            && s.leap == IsLeap(s.hi + 1)
  {
    hide YearLength, DaysInYears, IsLeap, Assembled;
    var n100, d100 := cycleDay / CENTURY_DAYS, cycleDay % CENTURY_DAYS;
    var n004, d004 := d100 / LEAP_CYCLE_DAYS, d100 % LEAP_CYCLE_DAYS;
    CycleDigits(cycleDay);
    AssembledCorrect(n400, n100, n004, d004 / 365, d004 % 365);
  }

  lemma AssembledCorrect(n400: int, n100: nat, n004: int, n001: nat, yday: int)
    requires n100 <= 4 && 0 <= n004 < 25 && n001 <= 4 && 0 <= yday < 365
    requires n100 == 4 ==> n004 == 0 && n001 == 0 && yday == 0
    requires n001 == 4 ==> n004 < 24 && yday == 0
    ensures var s := Assembled(n400, n100, n004, n001, yday);
            && DaysInYears(s.hi) + s.lo
               == n400 * CYCLE_DAYS + (n100 * CENTURY_DAYS + n004 * LEAP_CYCLE_DAYS + n001 * 365 + yday)
            && 0 <= s.lo < YearLength(s.hi + 1)
            && s.leap == IsLeap(s.hi + 1)
  {
    hide DaysInYears, IsLeap;
    OrAboveThree(n001, n100);
    hide BitOr;
    if n100 == 4 {
      DaysInYearsRadix(n400, 3, 24, 3);
      LeapOfDigits(n400, 3, 24, 3);
    } else if n001 == 4 {
      DaysInYearsRadix(n400, n100, n004, 3);
      LeapOfDigits(n400, n100, n004, 3);
    } else {
      DaysInYearsRadix(n400, n100, n004, n001);
      LeapOfDigits(n400, n100, n004, n001);
    }
  }

  lemma CycleDigits(cycleDay: int)
    requires 0 <= cycleDay < CYCLE_DAYS
    ensures var n100, d100 := cycleDay / CENTURY_DAYS, cycleDay % CENTURY_DAYS;
            var n004, d004 := d100 / LEAP_CYCLE_DAYS, d100 % LEAP_CYCLE_DAYS;
            var n001, yday := d004 / 365, d004 % 365;
            && cycleDay == n100 * CENTURY_DAYS + n004 * LEAP_CYCLE_DAYS + n001 * 365 + yday
            && 0 <= n100 <= 4 && 0 <= n004 < 25 && 0 <= n001 <= 4 && 0 <= yday < 365
            && (n100 == 4 ==> n004 == 0 && n001 == 0 && yday == 0)
            && (n001 == 4 ==> n004 < 24 && yday == 0)
  {
  }

  lemma OrAboveThree(a: nat, b: nat)
    requires a <= 4 && b <= 4
    ensures BitOr(a, b) > 3 <==> a == 4 || b == 4
  {
    assert BitOr(a / 4, b / 4) == (if a == 4 || b == 4 then 1 else 0);
  }

  /** ... and no other split would do. */
  lemma SplitEraDaysUnique(days: int, y: int, d: int)
    requires DaysInYears(y) + d == days && 0 <= d < YearLength(y + 1)
    ensures SplitEraDays(days) == YearSplit(y, d, IsLeap(y + 1))
  {
    hide DaysInYears, SplitEraDays, IsLeap;
    var s := SplitEraDays(days);
    SplitEraDaysCorrect(days);
    YearStep(y);
    YearStep(s.hi);
    if y < s.hi {
      YearsMonotone(y + 1, s.hi);
    } else if s.hi < y {
      YearsMonotone(s.hi + 1, y);
    }
  }

  /** The month tables accumulate the month lengths. */
  lemma MonthTableSteps(m: int, leap: bool)
    requires 0 <= m < 12
    ensures MonthTable(leap)[0] == 0 && MonthTable(leap)[12] == if leap then 366 else 365
    ensures MonthTable(leap)[m + 1] == MonthTable(leap)[m] + MonthLength(m, leap)
  {
  }

  /** The guess-and-correct step always lands in the right month. */
  lemma SplitYearDaysCorrect(eyd: int, leap: bool)
    ensures var s := SplitYearDays(eyd, leap);
            if 0 <= eyd < (if leap then 366 else 365) then
              && 0 <= s.hi < 12
              && MonthTable(leap)[s.hi] + s.lo == eyd
              && 0 <= s.lo < MonthLength(s.hi, leap)
            else s == Split(-1, -1)
  {
    if 0 <= eyd < (if leap then 366 else 365) {
      var m := eyd / 32;
      MonthsApart(m, leap);
      hide MonthTable, MonthLength;
    }
  }

  /** A month has at most 31 days, and none starts later than 32 days a month would have it. */
  lemma MonthsApart(m: int, leap: bool)
    requires 0 <= m < 12
    ensures MonthTable(leap)[m] <= 32 * m && MonthTable(leap)[12] == (if leap then 366 else 365)
    ensures MonthTable(leap)[m + 1] == MonthTable(leap)[m] + MonthLength(m, leap)
    ensures m < 11 ==> MonthTable(leap)[m + 2] == MonthTable(leap)[m + 1] + MonthLength(m + 1, leap)
    ensures m < 11 ==> 32 * m + 31 < MonthTable(leap)[m + 2]
  {
  }

  lemma SplitYearDaysUnique(m: int, d: int, leap: bool)
    requires 0 <= m < 12 && 0 <= d < MonthLength(m, leap)
    ensures SplitYearDays(MonthTable(leap)[m] + d, leap) == Split(m, d)
  {
  }

  /** The March-based conversion agrees with the January-based table. */
  lemma ShiftedMonthAgrees(years: int, m: int)
    requires 0 <= m < 12
    ensures DaysInYears(years + DaysInMonths(m).hi) + DaysInMonths(m).lo
         == DaysInYears(years) + MonthTable(IsLeap(years + 1))[m]
  {
    hide DaysInYears, IsLeap;
    YearStep(years);
    assert DaysInMonths(m) == if m < 2 then Split(0, SHIFTED_MONTHS[m + 10] - 306)
                              else Split(1, SHIFTED_MONTHS[m - 2] - 306);
  }

  /** The two conversions of an elapsed date differ by the start of the year, for
      months in and out of range. */
  lemma YearDaysVsEraDays(years: int, mons: int, mdays: int)
    ensures EdateToYearDays(years, mons, mdays) == EdateToEraDays(years, mons, mdays) - DaysInYears(years)
  {
    MacroIsLeapRule(years + 1);
    if 0 <= mons < 12 {
      ShiftedMonthAgrees(years, mons);
    }
  }

  /** Twelve more months are one more year, whatever the month number. */
  lemma MonthsCarryIntoYears(years: int, mons: int, mdays: int)
    ensures EdateToEraDays(years, mons + 12, mdays) == EdateToEraDays(years + 1, mons, mdays)
  {
    hide DaysInYears, EdateToEraDays, IsLeap;
    EraDaysNormal(years, mons, mdays);
    EraDaysNormal(years, mons + 12, mdays);
    EraDaysNormal(years + 1, mons, mdays);
    assert (mons + 12) % 12 == mons % 12 && (mons + 12) / 12 == mons / 12 + 1;
  }

  lemma EraDaysNormal(years: int, mons: int, mdays: int)
    ensures var y := years + mons / 12;
            EdateToEraDays(years, mons, mdays) == DaysInYears(y) + MonthTable(IsLeap(y + 1))[mons % 12] + mdays
  {
    hide DaysInYears, IsLeap;
    NormalMonth(mons);
    NormalMonth(mons % 12);
    ShiftedMonthAgrees(years + mons / 12, mons % 12);
  }

  /** One more month adds the length of the month it leaves: together with the
      year starts this determines the conversion for every month number. */
  lemma MonthStep(years: int, mons: int, mdays: int)
    ensures EdateToEraDays(years, mons + 1, mdays)
         == EdateToEraDays(years, mons, mdays) + MonthLength(mons % 12, IsLeap(years + mons / 12 + 1))
  {
    hide DaysInYears, EdateToEraDays, IsLeap;
    EraDaysNormal(years, mons, mdays);
    EraDaysNormal(years, mons + 1, mdays);
    YearStep(years + mons / 12);
    MonthTableSteps(mons % 12, IsLeap(years + mons / 12 + 1));
    if mons % 12 == 11 {
      assert (mons + 1) / 12 == mons / 12 + 1 && (mons + 1) % 12 == 0;
    } else {
      assert (mons + 1) / 12 == mons / 12 && (mons + 1) % 12 == mons % 12 + 1;
    }
  }
}
