/** From day numbers and NTP seconds to calendar structures and back
    (libntp/ntp_calendar.c). */
module Dates {
  import opened Words
  import opened Gregorian
  import opened DaySplit
  import opened Epoch
  import opened IsoWeeks
  import Periodic

  const DAY_NTP_STARTS := 693596

  function U16(x: int): int { x % 65536 }

  function U8(x: int): int { x % 256 }

  datatype Time = Time(hour: int, minute: int, second: int)
  datatype Date = Date(year: int, yearday: int, month: int, monthday: int, weekday: int)
  datatype WeekDate = WeekDate(year: int, week: int, weekday: int)

  predicate ValidTime(t: Time) { 0 <= t.hour < 24 && 0 <= t.minute < 60 && 0 <= t.second < 60 }

  /** A date of the calendar whose derived fields agree with it, in a year that
      the 16-bit field can hold. */
  predicate ValidDate(d: Date)
  {
    && 0 <= d.year <= 65535 && 1 <= d.month <= 12
    && 1 <= d.monthday <= MonthLength(d.month - 1, IsLeap(d.year))
    && d.yearday == MonthTable(IsLeap(d.year))[d.month - 1] + d.monthday
    && d.weekday == DateToRd(d) % 7
  }

  predicate ValidWeekDate(w: WeekDate)
  {
    && 0 <= w.year <= 65535 && 1 <= w.weekday <= 7
    && 1 <= w.week <= WeeksInYears(w.year) - WeeksInYears(w.year - 1)
  }

  // ------------------------------------------------------- structures to numbers

  /** ntpcal_date_to_rd: only year, month and day of month are used. */
  function DateToRd(d: Date): int { EdateToEraDays(d.year - 1, d.month - 1, d.monthday - 1) + 1 }

  /** ntpcal_etime_to_seconds */
  function TimeToSeconds(t: Time): int { (t.hour * 60 + t.minute) * 60 + t.second }

  /** ntpcal_date_to_ntp */
  function DateToNtp(d: Date, t: Time): int { U32(Dayjoin(DateToRd(d) - DAY_NTP_STARTS, TimeToSeconds(t))) }

  function WeekDateToRd(w: WeekDate): int { (WeeksInYears(w.year - 1) + w.week - 1) * 7 + w.weekday }

  /** isocal_date_to_ntp */
  function WeekDateToNtp(w: WeekDate, t: Time): int
  {
    U32(Dayjoin(WeekDateToRd(w) - DAY_NTP_STARTS, TimeToSeconds(t)))
  }

  // ------------------------------------------------------- numbers to structures

  /** priv_timesplit: excess days and the time of day. */
  function Timesplit(ts: int): (int, Time)
  {
    var q := TruncDiv(ts, SECSPERDAY);
    var r := TruncMod(ts, SECSPERDAY);
    if 0 <= ts < SECSPERDAY then (0, ClockTime(ts))
    else if r < 0 then (q - 1, ClockTime(r + SECSPERDAY)) else (q, ClockTime(r))
  }

  function ClockTime(ts: int): Time { Time(U8(ts / 60 / 60), U8(ts / 60 % 60), U8(ts % 60)) }

  lemma ClockTimeCorrect(ts: int)
    requires 0 <= ts < SECSPERDAY
    ensures ValidTime(ClockTime(ts)) && TimeToSeconds(ClockTime(ts)) == ts
  {
    hide U8;
    var m := ts / 60;
    Sixty(ts, 1440);
    Sixty(m, 24);
    Fields(m / 60);
    Fields(m % 60);
    Fields(ts % 60);
  }

  lemma Sixty(n: nat, bound: nat)
    requires n < 60 * bound
    ensures 0 <= n / 60 < bound && 0 <= n % 60 < 60 && n == 60 * (n / 60) + n % 60
  {
  }

  lemma TimesplitCorrect(ts: int)
    ensures var s := Timesplit(ts);
            ValidTime(s.1) && s.0 * SECSPERDAY + TimeToSeconds(s.1) == ts
    ensures 0 <= ts < SECSPERDAY ==> Timesplit(ts).0 == 0
  {
    hide ClockTime;
    FloorFix(ts, SECSPERDAY);
    assert ts == ts / SECSPERDAY * SECSPERDAY + ts % SECSPERDAY;
    ClockTimeCorrect(ts % SECSPERDAY);
  }

  /** Storing small numbers in narrow fields loses nothing. */
  lemma Fields(x: int)
    ensures 0 <= x < 256 ==> U8(x) == x
    ensures 0 <= x < 255 ==> U8(U8(x) + 1) == x + 1
    ensures 0 <= x < 65535 ==> U16(U16(x) + 1) == x + 1
  {
  }

  lemma NextU16(x: int)
    ensures U16(U16(x) + 1) == U16(x + 1)
  {
  }

  /** struct calendar */
  class Calendar {
    var year: int
    var yearday: int
    var month: int
    var monthday: int
    var hour: int
    var minute: int
    var second: int
    var weekday: int

    function DatePart(): Date reads this { Date(year, yearday, month, monthday, weekday) }

    function TimePart(): Time reads this { Time(hour, minute, second) }

    /** ntpcal_rd_to_date: the date part for a day number.  The result tells a
        leap year from a regular one, or is -1 when the year field overflows. */
    method RdToDate(rd: int) returns (retv: int)
      modifies this
      ensures TimePart() == old(TimePart())
      ensures DatePart() == DateOfRd(rd)
      ensures retv == if !YearFits(rd) then -1 else if IsLeap(YearOfRd(rd)) then 1 else 0
    {
      hide DaysInYears, IsLeap, SplitEraDays, SplitYearDays, U8, U16, TruncMod;
      SplitEraDaysCorrect(rd - 1);
      weekday := U8(TruncMod(rd, 7));
      if weekday >= 7 {
        weekday := U8(weekday + 7);
      }
      WeekdayField(rd);
      var split := SplitEraDays(rd - 1);
      var leaps := if split.leap then 1 else 0;
      retv := leaps;
      year := U16(U16(split.hi) + 1);
      YearField(split.hi);
      if year != split.hi + 1 {
        year := 0;
        retv := -1;
      }
      yearday := U16(U16(split.lo) + 1);
      var m := SplitYearDays(split.lo, split.leap);
      SplitYearDaysCorrect(split.lo, split.leap);
      Fields(split.lo);
      Fields(m.hi);
      Fields(m.lo);
      month := U8(U8(m.hi) + 1);
      monthday := U8(U8(m.lo) + 1);
      retv := if retv != 0 then retv else leaps;
    }

    /** ntpcal_daysec_to_date */
    method DaysecToDate(sec: int) returns (days: int)
      modifies this
      ensures DatePart() == old(DatePart())
      ensures days == Timesplit(sec).0 && TimePart() == Timesplit(sec).1
    {
      hide Timesplit, U8;
      var (d, ts) := Timesplit(sec);
      TimesplitCorrect(sec);
      Fields(ts.hour);
      Fields(ts.minute);
      Fields(ts.second);
      hour, minute, second := U8(ts.hour), U8(ts.minute), U8(ts.second);
      days := d;
    }

    /** ntpcal_ntp_to_date: unfold around the pivot, split, convert the parts. */
    method NtpToDate(ntp: u32, pivot: int) returns (retv: int)
      requires InInt64(pivot)
      modifies this
      ensures DatePart() == DateOfRd(RdOfNtp(ntp, pivot))
      ensures TimePart() == TimeOfNtp(ntp, pivot)
      ensures retv == -1 <==> !YearFits(RdOfNtp(ntp, pivot))
      ensures retv != -1 ==> DateToNtp(DatePart(), TimePart()) == ntp
      ensures retv != -1 ==>
                var t := NtpToNtp(ntp, pivot).Signed();
                && ValidDate(DatePart()) && ValidTime(TimePart())
                && CountedDays(year - 1) + yearday - 1 - CountedDays(1899) == S32(t / 86400)
                && weekday == (S32(t / 86400) + 1) % 7
                && 3600 * hour + 60 * minute + second == t % 86400
    {
      hide NtpToNtp, Daysplit, Timesplit, DateOfRd, SplitEraDays, DateToNtp, S64, CountedDays, ValidDate, S32;
      var vl := NtpToNtp(ntp, pivot);
      var ds := Daysplit(vl.Signed());
      TimesplitCorrect(ds.lo);
      var extra := DaysecToDate(ds.lo);
      retv := RdToDate(ds.hi + extra + DAY_NTP_STARTS);
      if retv != -1 {
        DateNtpRoundTrip(ntp, pivot);
        StampDate(ntp, pivot);
      }
    }
  }

  lemma WeekdayField(rd: int)
    ensures var w := U8(TruncMod(rd, 7));
            (if w >= 7 then U8(w + 7) else w) == rd % 7
  {
    FloorFix(rd, 7);
  }

  lemma YearField(hi: int)
    ensures U16(U16(hi) + 1) == hi + 1 <==> 0 <= hi + 1 <= 65535
  {
  }

  /** The year a day number lies in. */
  function YearOfRd(rd: int): int { SplitEraDays(rd - 1).hi + 1 }

  predicate YearFits(rd: int) { 0 <= YearOfRd(rd) <= 65535 }

  /** The date of a day number, with year 0 standing for years out of range. */
  function DateOfRd(rd: int): Date
  {
    var s := SplitEraDays(rd - 1);
    var m := SplitYearDays(s.lo, s.leap);
    Date(if YearFits(rd) then YearOfRd(rd) else 0, s.lo + 1, m.hi + 1, m.lo + 1, rd % 7)
  }

  function RdOfNtp(ntp: u32, pivot: int): int
    requires InInt64(pivot)
  {
    Daysplit(NtpToNtp(ntp, pivot).Signed()).hi + DAY_NTP_STARTS
  }

  function TimeOfNtp(ntp: u32, pivot: int): Time
    requires InInt64(pivot)
  {
    Timesplit(Daysplit(NtpToNtp(ntp, pivot).Signed()).lo).1
  }

  // --------------------------------------------------------------- properties

  /** The day number of a date, by the January-based month table. */
  lemma DateToRdByTable(d: Date)
    requires 1 <= d.month <= 12
    ensures DateToRd(d) == DaysInYears(d.year - 1) + MonthTable(IsLeap(d.year))[d.month - 1] + d.monthday
  {
    hide DaysInYears, IsLeap, EdateToEraDays;
    EraDaysNormal(d.year - 1, d.month - 1, d.monthday - 1);
  }

  /** Converting a valid date to a day number and back gives the date. */
  lemma RdRoundTrip(d: Date)
    requires ValidDate(d)
    ensures DateOfRd(DateToRd(d)) == d
  {
    hide DaysInYears, IsLeap, DateToRd, SplitEraDays, SplitYearDays;
    DateToRdByTable(d);
    var leap := IsLeap(d.year);
    MonthTableBounds(d.month - 1, leap);
    SplitEraDaysUnique(DateToRd(d) - 1, d.year - 1, d.yearday - 1);
    SplitYearDaysUnique(d.month - 1, d.monthday - 1, leap);
  }

  lemma MonthTableBounds(m: int, leap: bool)
    requires 0 <= m < 12
    ensures 0 <= MonthTable(leap)[m] && MonthTable(leap)[m] + MonthLength(m, leap) <= if leap then 366 else 365
  {
  }

  /** The date of a day number is valid when the year fits; and converting it
      back gives the day number exactly then. */
  lemma DateRoundTrip(rd: int)
    ensures YearFits(rd) ==> ValidDate(DateOfRd(rd))
    ensures DateToRd(DateOfRd(rd)) == rd <==> YearFits(rd)
  {
    if YearFits(rd) {
      FittingYear(rd);
    } else {
      OverflowedYear(rd, DateOfRd(rd));
    }
  }

  lemma FittingYear(rd: int)
    requires YearFits(rd)
    ensures ValidDate(DateOfRd(rd)) && DateToRd(DateOfRd(rd)) == rd
  {
    hide DaysInYears, IsLeap, DateToRd, SplitEraDays, SplitYearDays, MonthTable, MonthLength;
    var s := SplitEraDays(rd - 1);
    SplitEraDaysCorrect(rd - 1);
    SplitYearDaysCorrect(s.lo, s.leap);
    DateToRdByTable(DateOfRd(rd));
  }

  /** Year 0 standing in for another year denotes another day. */
  lemma OverflowedYear(rd: int, d: Date)
    requires !YearFits(rd) && d == DateOfRd(rd)
    ensures DateToRd(d) != rd
  {
    hide DaysInYears, IsLeap, DateToRd, SplitEraDays, SplitYearDays;
    var s := SplitEraDays(rd - 1);
    SplitEraDaysCorrect(rd - 1);
    SplitYearDaysCorrect(s.lo, s.leap);
    DateToRdByTable(d);
    TablesDiffer(d.month - 1);
    if s.hi < -1 {
      YearsMonotone(s.hi, -1);
      YearStep(s.hi);
      YearsMonotone(s.hi + 1, -1);
    } else {
      YearStep(-1);
      YearsMonotone(0, s.hi);
    }
  }

  lemma TablesDiffer(m: int)
    requires 0 <= m < 12
    ensures REGULAR_MONTHS[m] <= LEAP_MONTHS[m] <= REGULAR_MONTHS[m] + 1
  {
  }

  /** Wrapping the day count to 32 bits keeps the low 32 bits of the seconds. */
  lemma LowBitsSurvive(t: int)
    ensures U32(S32(t / SECSPERDAY) * SECSPERDAY + t % SECSPERDAY) == U32(t)
  {
    hide S32, U32;
    var d := t / SECSPERDAY;
    S32Congruent(d);
    var k := (d - S32(d)) / TWO32;
    assert t == S32(d) * SECSPERDAY + t % SECSPERDAY + (k * SECSPERDAY) * TWO32;
    DropCyclesStep(S32(d) * SECSPERDAY + t % SECSPERDAY, k * SECSPERDAY);
  }

  /** The unfolded stamp has the stamp as its low 32 bits. */
  lemma UnfoldedLowWord(ntp: u32, pivot: int)
    requires InInt64(pivot)
    ensures U32(NtpToNtp(ntp, pivot).Signed()) == ntp
  {
    hide NtpToNtp, U64;
    var start := pivot + JAN_1970 - TWO31;
    NtpToNtpUnfolds(ntp, pivot);
    Periodic.ExactIsExtension(start, ntp, TWO32);
    var e := Periodic.Exact(start, ntp, TWO32);
    var k := (e - ntp) / TWO32;
    assert e == ntp + k * TWO32;
    LowOfWrapped(e, NtpToNtp(ntp, pivot));
    DropCyclesStep(ntp, k);
    Wrap32(ntp, 0);
  }

  lemma LowOfWrapped(e: int, w: Wide)
    requires w.Value() == U64(e)
    ensures U32(w.Signed()) == U32(e)
  {
    hide U32;
    var m := (w.Signed() - e) / TWO64;
    assert w.Signed() == e + m * TWO64 by {
      var n := e / TWO64;
      DivModUnique(w.Signed() - e, TWO64, (if w.Value() >= TWO63 then -1 else 0) - n, 0);
    }
    DropCyclesStep(e, m * TWO32);
  }

  /** Joining the day and the time that a stamp was split into gives the stamp. */
  lemma JoinedStamp(ntp: u32, pivot: int)
    requires InInt64(pivot)
    ensures U32(Dayjoin(RdOfNtp(ntp, pivot) - DAY_NTP_STARTS, TimeToSeconds(TimeOfNtp(ntp, pivot)))) == ntp
    ensures ValidTime(TimeOfNtp(ntp, pivot))
  {
    hide NtpToNtp, U32, S32, S64, Timesplit, Daysplit, TimeToSeconds;
    var t := NtpToNtp(ntp, pivot).Signed();
    TimesplitCorrect(t % SECSPERDAY);
    UnfoldedLowWord(ntp, pivot);
    LowBitsSurvive(t);
    S32Range(t / SECSPERDAY);
    SmallS64(S32(t / SECSPERDAY) * SECSPERDAY + t % SECSPERDAY);
  }

  /** ntpcal_date_to_ntp undoes ntpcal_ntp_to_date whatever the pivot, whenever
      the year fits the structure. */
  lemma DateNtpRoundTrip(ntp: u32, pivot: int)
    requires InInt64(pivot) && YearFits(RdOfNtp(ntp, pivot))
    ensures DateToNtp(DateOfRd(RdOfNtp(ntp, pivot)), TimeOfNtp(ntp, pivot)) == ntp
  {
    hide DateToRd, YearFits, DateOfRd, Dayjoin, RdOfNtp, TimeOfNtp;
    JoinedStamp(ntp, pivot);
    DateRoundTrip(RdOfNtp(ntp, pivot));
  }

  // ------------------------------------------------ which date a stamp denotes

  /** The two epochs: day number, seconds between them, and day of the week of the first. */
  lemma Epochs(yearday: int, weekday: int)
    ensures DateToRd(Date(1900, yearday, 1, 1, weekday)) == DAY_NTP_STARTS == CountedDays(1899) + 1
    ensures DAY_NTP_STARTS % 7 == 1
    ensures (DateToRd(Date(1970, yearday, 1, 1, weekday)) - DAY_NTP_STARTS) * 86400 == JAN_1970
  {
    DaysInYearsCounts(1899);
    DaysInYearsRadix(4, 2, 24, 3);
    DaysInYearsRadix(4, 3, 17, 1);
    hide DaysInYears, IsLeap, CountedDays, DateToRd;
    DateToRdByTable(Date(1900, yearday, 1, 1, weekday));
    DateToRdByTable(Date(1970, yearday, 1, 1, weekday));
  }

  /** The days of a date since the start of 1900, counted year by year. */
  lemma DaysSince1900(d: Date)
    requires ValidDate(d)
    ensures DateToRd(d) - DAY_NTP_STARTS == CountedDays(d.year - 1) + d.yearday - 1 - CountedDays(1899)
  {
    hide DaysInYears, IsLeap, CountedDays, DateToRd, MonthTable, MonthLength;
    Epochs(1, 1);
    DaysInYearsCounts(d.year - 1);
    DateToRdByTable(d);
  }

  /** The date and the time of a stamp, whenever the year fits: the valid ones whose days
      and seconds since the start of 1900, a Monday, are those of the unfolded stamp, the
      day count being 32 bits wide. */
  lemma StampDate(ntp: u32, pivot: int)
    requires InInt64(pivot) && YearFits(RdOfNtp(ntp, pivot))
    ensures var t, d, c := NtpToNtp(ntp, pivot).Signed(), DateOfRd(RdOfNtp(ntp, pivot)), TimeOfNtp(ntp, pivot);
            && ValidDate(d) && ValidTime(c)
            && CountedDays(d.year - 1) + d.yearday - 1 - CountedDays(1899) == S32(t / 86400)
            && d.weekday == (S32(t / 86400) + 1) % 7
            && 3600 * c.hour + 60 * c.minute + c.second == t % 86400
  {
    hide DaysInYears, CountedDays, DateToRd, DateOfRd, YearFits, NtpToNtp, S32, S64, Timesplit, Daysplit;
    var t, rd := NtpToNtp(ntp, pivot).Signed(), RdOfNtp(ntp, pivot);
    DateRoundTrip(rd);
    DaysSince1900(DateOfRd(rd));
    StampTime(ntp, pivot);
    Epochs(1, 1);
    ShiftedWeekday(rd - DAY_NTP_STARTS);
  }

  lemma ShiftedWeekday(n: int)
    ensures (n + DAY_NTP_STARTS) % 7 == (n + 1) % 7 && (n + DAY_NTP_STARTS - 1) % 7 == n % 7
  {
    DivModUnique(n + DAY_NTP_STARTS, 7, (n + 1) / 7 + 99085, (n + 1) % 7);
    DivModUnique(n + DAY_NTP_STARTS - 1, 7, n / 7 + 99085, n % 7);
  }

  /** The UN*X epoch was a Thursday, the first of January 1970. */
  lemma UnixEpoch()
    ensures RdOfNtp(2208988800, 0) == 719163 && DateOfRd(719163) == Date(1970, 1, 1, 1, 4)
    ensures TimeOfNtp(2208988800, 0) == Time(0, 0, 0)
  {
    EpochUnfolding(2208988800, 0, 2208988800);
    Epochs(1, 4);
    hide NtpToNtp, DateOfRd, DateToRd;
    RdRoundTrip(Date(1970, 1, 1, 1, 4));
  }

  lemma StampTime(ntp: u32, pivot: int)
    requires InInt64(pivot)
    ensures var t, c := NtpToNtp(ntp, pivot).Signed(), TimeOfNtp(ntp, pivot);
            ValidTime(c) && 3600 * c.hour + 60 * c.minute + c.second == t % 86400
  {
    hide NtpToNtp, S32, S64, Timesplit, Daysplit;
    TimesplitCorrect(NtpToNtp(ntp, pivot).Signed() % 86400);
  }

  /** The stamp of a date and a time: the seconds since the start of 1900, in 32 bits. */
  lemma DateStamp(d: Date, c: Time)
    requires ValidDate(d) && ValidTime(c)
    ensures DateToNtp(d, c) == U32((CountedDays(d.year - 1) + d.yearday - 1 - CountedDays(1899)) * 86400
                                   + 3600 * c.hour + 60 * c.minute + c.second)
  {
    hide CountedDays, DateToRd, ValidDate, U32, S64;
    DaysSince1900(d);
    LowOfS64((DateToRd(d) - DAY_NTP_STARTS) * SECSPERDAY + TimeToSeconds(c));
  }

  lemma LowOfS64(x: int)
    ensures U32(S64(x)) == U32(x)
  {
    var q := Turns64(x);
    hide U64, U32;
    var k := if U64(x) >= TWO63 then q + 1 else q;
    assert S64(x) == x - k * TWO64;
    DropCyclesStep(x, -k * TWO32);
  }

  /** The same for the week date, whatever the year. */
  lemma StampWeekDate(ntp: u32, pivot: int)
    requires InInt64(pivot)
    ensures var t, w := NtpToNtp(ntp, pivot).Signed(), WeekDateOfRd(RdOfNtp(ntp, pivot));
            && WeekDateToRd(w) - 1 - CountedDays(1899) == S32(t / 86400)
            && w.weekday == S32(t / 86400) % 7 + 1
  {
    hide WeekDateToRd, CountedDays, NtpToNtp, S32, Daysplit, SplitEraWeeks;
    Epochs(1, 1);
    WeekDateRoundTrip(RdOfNtp(ntp, pivot));
    ShiftedWeekday(RdOfNtp(ntp, pivot) - DAY_NTP_STARTS);
  }

  // ---------------------------------------------------------------- ISO dates

  /** The week date of a day number. */
  function WeekDateOfRd(rd: int): WeekDate
  {
    var s := SplitEraWeeks((rd - 1) / 7);
    WeekDate(s.hi + 1, s.lo + 1, (rd - 1) % 7 + 1)
  }

  /** struct isodate */
  class IsoDate {
    var year: int
    var week: int
    var weekday: int
    var hour: int
    var minute: int
    var second: int

    function DatePart(): WeekDate reads this { WeekDate(year, week, weekday) }

    function TimePart(): Time reads this { Time(hour, minute, second) }

    /** isocal_ntp_to_date: tells whether the ISO year is in 1..65535, and then
        the fields denote the stamp. */
    method NtpToDate(ntp: u32, pivot: int) returns (ok: bool)
      requires InInt64(pivot)
      modifies this
      ensures ok <==> 1 <= WeekDateOfRd(RdOfNtp(ntp, pivot)).year <= 65535
      ensures var w := WeekDateOfRd(RdOfNtp(ntp, pivot)); DatePart() == w.(year := U16(w.year))
      ensures ok ==> DatePart() == WeekDateOfRd(RdOfNtp(ntp, pivot)) && ValidWeekDate(DatePart())
      ensures TimePart() == TimeOfNtp(ntp, pivot)
      ensures ok ==> WeekDateToNtp(DatePart(), TimePart()) == ntp
      ensures var t := NtpToNtp(ntp, pivot).Signed();
              && (ok ==> WeekDateToRd(DatePart()) - 1 - CountedDays(1899) == S32(t / 86400))
              && weekday == S32(t / 86400) % 7 + 1
              && 3600 * hour + 60 * minute + second == t % 86400
    {
      hide CountedDays, WeekDateToRd, S32;
      hide NtpToNtp, Daysplit, Timesplit, SplitEraWeeks, WeeksInYears, WeekDateToNtp, WeekDateOfRd, ValidWeekDate;
      hide U8, U16, U32, U64, S64;
      var vl := NtpToNtp(ntp, pivot);
      var ds := Daysplit(vl.Signed());
      var (extra, ts) := Timesplit(ds.lo);
      TimesplitCorrect(ds.lo);
      Fields(ts.hour);
      Fields(ts.minute);
      Fields(ts.second);
      hour, minute, second := U8(ts.hour), U8(ts.minute), U8(ts.second);

      StampWeekDate(ntp, pivot);
      StampTime(ntp, pivot);
      hide TimeToSeconds;
      ok := SetDate(ds.hi + extra + DAY_NTP_STARTS - 1);
      if ok {
        FittingIsoYear(RdOfNtp(ntp, pivot));
        WeekDateNtpRoundTrip(ntp, pivot);
      }
    }

    /** The date part of isocal_ntp_to_date, from elapsed days of the era. */
    method SetDate(day: int) returns (ok: bool)
      modifies this`year, this`week, this`weekday
      ensures ok <==> 1 <= WeekDateOfRd(day + 1).year <= 65535
      ensures var w := WeekDateOfRd(day + 1); DatePart() == w.(year := U16(w.year))
      ensures ok ==> DatePart() == WeekDateOfRd(day + 1)
    {
      hide SplitEraWeeks, WeeksInYears, TruncDiv, TruncMod, U8, U16;
      var w, r := TruncDiv(day, 7), TruncMod(day, 7);
      FloorFix(day, 7);
      if r < 0 {
        w := w - 1;
        r := r + 7;
      }
      weekday := U8(U8(r) + 1);
      var s := SplitEraWeeks(w);
      SplitEraWeeksCorrect(w);
      IsoYearLength(s.hi);
      Fields(r);
      Fields(s.lo);
      Fields(s.hi);
      NextU16(s.hi);
      year := U16(U16(s.hi) + 1);
      week := U8(U8(s.lo) + 1);
      ok := s.hi >= 0 && s.hi < 0xFFFF;
    }
  }

  /** Week dates and day numbers are in one-to-one correspondence. */
  lemma WeekDateRoundTrip(rd: int)
    ensures var w := WeekDateOfRd(rd);
            && WeekDateToRd(w) == rd
            && 1 <= w.weekday <= 7 && 1 <= w.week <= WeeksInYears(w.year) - WeeksInYears(w.year - 1)
  {
    hide WeeksInYears, SplitEraWeeks;
    SplitEraWeeksCorrect((rd - 1) / 7);
  }

  lemma FittingIsoYear(rd: int)
    requires 1 <= WeekDateOfRd(rd).year <= 65535
    ensures ValidWeekDate(WeekDateOfRd(rd))
  {
    hide WeeksInYears, SplitEraWeeks, WeekDateOfRd;
    WeekDateRoundTrip(rd);
  }

  lemma RdOfWeekDate(w: WeekDate)
    requires ValidWeekDate(w)
    ensures WeekDateOfRd(WeekDateToRd(w)) == w
  {
    hide WeeksInYears, SplitEraWeeks;
    var weeks := WeeksInYears(w.year - 1) + w.week - 1;
    DivModUnique(WeekDateToRd(w) - 1, 7, weeks, w.weekday - 1);
    SplitEraWeeksUnique(weeks, w.year - 1, w.week - 1);
  }

  /** isocal_date_to_ntp undoes isocal_ntp_to_date. */
  lemma WeekDateNtpRoundTrip(ntp: u32, pivot: int)
    requires InInt64(pivot)
    ensures WeekDateToNtp(WeekDateOfRd(RdOfNtp(ntp, pivot)), TimeOfNtp(ntp, pivot)) == ntp
  {
    hide WeekDateToRd, WeekDateOfRd, Dayjoin, RdOfNtp, TimeOfNtp, WeeksInYears;
    JoinedStamp(ntp, pivot);
    WeekDateRoundTrip(RdOfNtp(ntp, pivot));
  }
}
