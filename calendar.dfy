/** Local civil time as JavaScript's `Date` sees it, with no time zone:
    a proleptic Gregorian calendar date plus a time of day, and the
    field-setter arithmetic of ECMA-262 section 21.4 (Date Objects).

    A `DateTime` is the record the `Date` getters return (`getFullYear`,
    `getMonth` (0-based), `getDate`, `getHours`, `getMinutes`, `getSeconds`,
    `getMilliseconds`). `MakeDate` turns arbitrary integer fields into the
    one valid record with the time value ECMA-262 section 21.4.1 assigns to
    MakeDate(MakeDay(y, m, d), MakeTime(h, min, s, ms)); every setter is
    `MakeDate` applied to the old fields with one of them replaced. */
module Calendar {

  const MsPerSecond: int := 1000
  const MsPerMinute: int := 60000
  const MsPerHour: int := 3600000
  const MsPerDay: int := 86400000

  datatype DateTime = DateTime(year: int, month: int, day: int,
                               hours: int, minutes: int, seconds: int, ms: int)

  predicate IsLeapYear(y: int) {
    y % 4 == 0 && (y % 100 != 0 || y % 400 == 0)
  }

  function DaysInYear(y: int): int {
    if IsLeapYear(y) then 366 else 365
  }

  /** Length of the 0-based month `m` of year `y`. */
  function DaysInMonth(y: int, m: int): int
    requires 0 <= m < 12
  {
    if m == 1 then (if IsLeapYear(y) then 29 else 28)
    else if m == 3 || m == 5 || m == 8 || m == 10 then 30
    else 31
  }

  /** What the getters of a `Date` holding a time value can return. */
  predicate IsValid(dt: DateTime) {
    && 0 <= dt.month < 12
    && 1 <= dt.day <= DaysInMonth(dt.year, dt.month)
    && 0 <= dt.hours < 24
    && 0 <= dt.minutes < 60
    && 0 <= dt.seconds < 60
    && 0 <= dt.ms < 1000
  }

  /** A `Date` object that holds a time value (not an Invalid Date). */
  type Date = dt: DateTime | IsValid(dt) witness DateTime(1970, 0, 1, 0, 0, 0, 0)

  // ---------------------------------------------------------------------
  // Day numbers, as ECMA-262 section 21.4.1 counts them from 1970-01-01.
  // ---------------------------------------------------------------------

  /** ECMA-262 DayFromYear: the day number of the first day of year `y`. */
  function DayFromYear(y: int): int {
    365 * (y - 1970) + (y - 1969) / 4 - (y - 1901) / 100 + (y - 1601) / 400
  }

  /** Days of year `y` before the 0-based month `m` (ECMA-262's table in
      MonthFromTime); `m == 12` gives the whole year. */
  function DaysBeforeMonth(y: int, m: int): int
    requires 0 <= m <= 12
  {
    var leap := if IsLeapYear(y) then 1 else 0;
    if m == 12 then DaysInYear(y)
    else [0, 31, 59, 90, 120, 151, 181, 212, 243, 273, 304, 334][m] + (if m >= 2 then leap else 0)
  }

  /** The day number of day `d` of month `m` of year `y` (`d` may lie outside the month). */
  function DayNumber(y: int, m: int, d: int): int
    requires 0 <= m < 12
  {
    DayFromYear(y) + DaysBeforeMonth(y, m) + d - 1
  }

  /** ECMA-262 MakeTime on integers: milliseconds from midnight. */
  function MakeTime(h: int, mi: int, s: int, ms: int): int {
    h * MsPerHour + mi * MsPerMinute + s * MsPerSecond + ms
  }

  function TimeWithinDay(dt: DateTime): int {
    MakeTime(dt.hours, dt.minutes, dt.seconds, dt.ms)
  }

  /** The time value (milliseconds from the epoch) of a civil date-time. */
  function TimeValue(dt: DateTime): int
    requires 0 <= dt.month < 12
  {
    DayNumber(dt.year, dt.month, dt.day) * MsPerDay + TimeWithinDay(dt)
  }

  /** The leap-day counts of `DayFromYear` go up by one exactly after a
      multiple of 4, of 100 and of 400. */
  lemma FourStep(y: int)
    ensures (y + 1 - 1969) / 4 - (y - 1969) / 4 == if y % 4 == 0 then 1 else 0
  {
  }

  lemma HundredStep(y: int)
    ensures (y + 1 - 1901) / 100 - (y - 1901) / 100 == if y % 100 == 0 then 1 else 0
  {
  }

  lemma FourHundredStep(y: int)
    ensures (y + 1 - 1601) / 400 - (y - 1601) / 400 == if y % 400 == 0 then 1 else 0
  {
  }

  /** The Gregorian rule as a count: a day for a multiple of 4, none back
      for a multiple of 100, one again for a multiple of 400. */
  lemma DaysInYearCount(y: int)
    ensures DaysInYear(y) == 365 + (if y % 4 == 0 then 1 else 0)
                                 - (if y % 100 == 0 then 1 else 0)
                                 + (if y % 400 == 0 then 1 else 0)
  {
    if y % 400 == 0 {
      assert y == 100 * (4 * (y / 400));
    }
    if y % 100 == 0 {
      assert y == 4 * (25 * (y / 100));
    }
  }

  lemma YearStep(y: int)
    ensures DayFromYear(y + 1) == DayFromYear(y) + DaysInYear(y)
  {
    FourStep(y);
    HundredStep(y);
    FourHundredStep(y);
    DaysInYearCount(y);
  }

  function PrevMonth(y: int, m: int): (int, int)
    requires 0 <= m < 12
  {
    if m == 0 then (y - 1, 11) else (y, m - 1)
  }

  function NextMonth(y: int, m: int): (int, int)
    requires 0 <= m < 12
  {
    if m == 11 then (y + 1, 0) else (y, m + 1)
  }

  /** The first day of the next month follows the last day of this one. */
  lemma MonthStep(y: int, m: int)
    requires 0 <= m < 12
    ensures var (ny, nm) := NextMonth(y, m);
            0 <= nm < 12 && DayNumber(ny, nm, 1) == DayNumber(y, m, 1) + DaysInMonth(y, m)
  {
    if m == 11 {
      YearStep(y);
    }
  }

  /** ECMA-262 MakeDay followed by the calendar decomposition of the day:
      the valid (year, month, day) whose day number is that of day `d`
      counted from the first of month `m` of year `y`. */
  function NormalizeDay(y: int, m: int, d: int): (r: (int, int, int))
    requires 0 <= m < 12
    ensures 0 <= r.1 < 12 && 1 <= r.2 <= DaysInMonth(r.0, r.1)
    ensures DayNumber(r.0, r.1, r.2) == DayNumber(y, m, 1) + d - 1
    decreases if d < 1 then 1 - d else 0, d
  {
    if d < 1 then
      var (py, pm) := PrevMonth(y, m);
      MonthStep(py, pm);
      NormalizeDay(py, pm, d + DaysInMonth(py, pm))
    else if d > DaysInMonth(y, m) then
      var (ny, nm) := NextMonth(y, m);
      MonthStep(y, m);
      NormalizeDay(ny, nm, d - DaysInMonth(y, m))
    else
      (y, m, d)
  }

  /** HourFromTime, MinFromTime, SecFromTime and msFromTime of a time within a day. */
  function SplitTime(tod: int): (r: (int, int, int, int))
    requires 0 <= tod < MsPerDay
    ensures 0 <= r.0 < 24 && 0 <= r.1 < 60 && 0 <= r.2 < 60 && 0 <= r.3 < 1000
    ensures MakeTime(r.0, r.1, r.2, r.3) == tod
  {
    var secs := tod / 1000;
    var mins := secs / 60;
    (mins / 60, mins % 60, secs % 60, tod % 1000)
  }

  /** A time of day is given by its fields in exactly one way. */
  lemma SplitTimeOfMakeTime(h: int, mi: int, s: int, ms: int)
    requires 0 <= h < 24 && 0 <= mi < 60 && 0 <= s < 60 && 0 <= ms < 1000
    ensures 0 <= MakeTime(h, mi, s, ms) < MsPerDay
    ensures SplitTime(MakeTime(h, mi, s, ms)) == (h, mi, s, ms)
  {
    var t := MakeTime(h, mi, s, ms);
    var secs := (h * 60 + mi) * 60 + s;
    assert t == secs * 1000 + ms;
    assert t / 1000 == secs && t % 1000 == ms;
    assert secs / 60 == h * 60 + mi && secs % 60 == s;
    assert (h * 60 + mi) / 60 == h && (h * 60 + mi) % 60 == mi;
  }

  /** Whole days and the time within the last one (ECMA-262 Day and TimeWithinDay). */
  lemma DaySplit(base: int, t: int)
    ensures 0 <= t % MsPerDay < MsPerDay
    ensures (base + t / MsPerDay) * MsPerDay + t % MsPerDay == base * MsPerDay + t
    ensures 0 <= t < MsPerDay ==> t / MsPerDay == 0 && t % MsPerDay == t
  {
    var q := t / MsPerDay;
    assert t == q * MsPerDay + t % MsPerDay;
    assert (base + q) * MsPerDay == base * MsPerDay + q * MsPerDay;
  }

  /** The calendar decomposition of ECMA-262
      MakeDate(MakeDay(y, mo, d), MakeTime(h, mi, s, ms)): every field may be
      out of range or negative and rolls over into the next larger unit. */
  function Decompose(y: int, mo: int, d: int, h: int, mi: int, s: int, ms: int): (r: Date)
    ensures TimeValue(r) == (DayNumber(y + mo / 12, mo % 12, 1) + d - 1) * MsPerDay + MakeTime(h, mi, s, ms)
  {
    var t := MakeTime(h, mi, s, ms);
    DaySplit(DayNumber(y + mo / 12, mo % 12, 1) + d - 1, t);
    var (yy, mm, dd) := NormalizeDay(y + mo / 12, mo % 12, d + t / MsPerDay);
    var (hh, mmi, ss, mss) := SplitTime(t % MsPerDay);
    DateTime(yy, mm, dd, hh, mmi, ss, mss)
  }

  /** ECMA-262 MakeDate(MakeDay(y, mo, d), MakeTime(h, mi, s, ms)) read back
      through the getters: the one valid record with that time value. */
  function MakeDate(y: int, mo: int, d: int, h: int, mi: int, s: int, ms: int): (r: Date)
    ensures TimeValue(r) == (DayNumber(y + mo / 12, mo % 12, 1) + d - 1) * MsPerDay + MakeTime(h, mi, s, ms)
  {
    var tv := (DayNumber(y + mo / 12, mo % 12, 1) + d - 1) * MsPerDay + MakeTime(h, mi, s, ms);
    var c := Decompose(y, mo, d, h, mi, s, ms);
    TimeValueDetermines();
    var r: Date :| TimeValue(r) == tv; r
  }

  /** Fields that are already in range are kept as they are. */
  lemma MakeDateKeepsValid(dt: Date)
    ensures MakeDate(dt.year, dt.month, dt.day, dt.hours, dt.minutes, dt.seconds, dt.ms) == dt
  {
    assert dt.month / 12 == 0 && dt.month % 12 == dt.month;
    TimeValueInjective(MakeDate(dt.year, dt.month, dt.day, dt.hours, dt.minutes, dt.seconds, dt.ms), dt);
  }

  /** The date a time value stands for: `new Date(tv)` read through the
      getters. */
  function DateOf(tv: int): (r: Date)
    ensures TimeValue(r) == tv
  {
    EpochDayNumber();
    MakeDate(1970, 0, 1, 0, 0, 0, tv)
  }

  /** 1 January 1970 is day 0. */
  lemma EpochDayNumber()
    ensures DayNumber(1970, 0, 1) == 0
  {
    assert DayFromYear(1970) == 0 by {
      assert (1970 - 1969) / 4 == 0 && (1970 - 1901) / 100 == 0 && (1970 - 1601) / 400 == 0;
    }
    assert DaysBeforeMonth(1970, 0) == 0;
  }

  /** A date is the date of its own time value. */
  lemma DateOfTimeValue(d: Date)
    ensures DateOf(TimeValue(d)) == d
  {
    TimeValueInjective(DateOf(TimeValue(d)), d);
  }

  /** The first day of a later year comes after every day of an earlier one. */
  lemma {:induction false} DayFromYearMonotone(a: int, b: int)
    requires a < b
    ensures DayFromYear(a + 1) <= DayFromYear(b)
    decreases b - a
  {
    if a + 1 < b {
      DayFromYearMonotone(a + 1, b);
      YearStep(a + 1);
    }
  }

  lemma DaysBeforeMonthMonotone(y: int, a: int, b: int)
    requires 0 <= a < b < 12
    ensures DaysBeforeMonth(y, a) + DaysInMonth(y, a) <= DaysBeforeMonth(y, b)
  {
  }

  lemma DayNumberWithinYear(dt: Date)
    ensures DayFromYear(dt.year) <= DayNumber(dt.year, dt.month, dt.day) < DayFromYear(dt.year + 1)
  {
    YearStep(dt.year);
    if dt.month < 11 {
      DaysBeforeMonthMonotone(dt.year, dt.month, 11);
    }
  }

  /** Distinct valid dates have distinct day numbers. */
  lemma DayNumberInjective(a: Date, b: Date)
    requires DayNumber(a.year, a.month, a.day) == DayNumber(b.year, b.month, b.day)
    ensures a.year == b.year && a.month == b.month && a.day == b.day
  {
    DayNumberSameYear(a, b);
    DayNumberSameMonth(a, b);
  }

  lemma DayNumberSameYear(a: Date, b: Date)
    requires DayNumber(a.year, a.month, a.day) == DayNumber(b.year, b.month, b.day)
    ensures a.year == b.year
  {
    DayNumberWithinYear(a);
    DayNumberWithinYear(b);
    if a.year < b.year {
      DayFromYearMonotone(a.year, b.year);
    } else if b.year < a.year {
      DayFromYearMonotone(b.year, a.year);
    }
  }

  lemma DayNumberSameMonth(a: Date, b: Date)
    requires a.year == b.year
    requires DayNumber(a.year, a.month, a.day) == DayNumber(b.year, b.month, b.day)
    ensures a.month == b.month
  {
    if a.month < b.month {
      DaysBeforeMonthMonotone(a.year, a.month, b.month);
    } else if b.month < a.month {
      DaysBeforeMonthMonotone(a.year, b.month, a.month);
    }
  }

  /** A valid `DateTime` is determined by its time value: the civil record is
      a faithful picture of the time value ECMA-262 stores in a `Date`, and
      `MakeDate` is the one valid record with the time value it promises. */
  lemma TimeValueInjective(a: Date, b: Date)
    requires TimeValue(a) == TimeValue(b)
    ensures a == b
  {
    SplitTimeOfMakeTime(a.hours, a.minutes, a.seconds, a.ms);
    SplitTimeOfMakeTime(b.hours, b.minutes, b.seconds, b.ms);
    var da, db := DayNumber(a.year, a.month, a.day), DayNumber(b.year, b.month, b.day);
    assert da == db;
    DayNumberInjective(a, b);
    assert TimeWithinDay(a) == TimeWithinDay(b);
  }

  lemma TimeValueDetermines()
    ensures forall a: Date, b: Date :: TimeValue(a) == TimeValue(b) ==> a == b
  {
    forall a: Date, b: Date | TimeValue(a) == TimeValue(b)
      ensures a == b
    {
      TimeValueInjective(a, b);
    }
  }

  /** `MakeDate` yields `c` whenever `c` falls on the day and at the time of
      day it computes. */
  lemma MakeDateIs(y: int, mo: int, d: int, h: int, mi: int, s: int, ms: int, c: Date)
    requires DayNumber(c.year, c.month, c.day) == DayNumber(y + mo / 12, mo % 12, 1) + d - 1
    requires TimeWithinDay(c) == MakeTime(h, mi, s, ms)
    ensures MakeDate(y, mo, d, h, mi, s, ms) == c
  {
    TimeValueInjective(MakeDate(y, mo, d, h, mi, s, ms), c);
  }

  /** Day 0 of a month is the last day of the month before. */
  lemma MakeDateDayZero(y: int, mo: int, h: int, mi: int, s: int, ms: int)
    requires 0 <= h < 24 && 0 <= mi < 60 && 0 <= s < 60 && 0 <= ms < 1000
    ensures var p := PrevMonth(y + mo / 12, mo % 12);
            MakeDate(y, mo, 0, h, mi, s, ms) == DateTime(p.0, p.1, DaysInMonth(p.0, p.1), h, mi, s, ms)
  {
    var p := PrevMonth(y + mo / 12, mo % 12);
    MonthStep(p.0, p.1);
    assert NextMonth(p.0, p.1) == (y + mo / 12, mo % 12);
    MakeDateIs(y, mo, 0, h, mi, s, ms, DateTime(p.0, p.1, DaysInMonth(p.0, p.1), h, mi, s, ms));
  }

  // ---------------------------------------------------------------------
  // The Date setters used by the blocks (ECMA-262 section 21.4.4).
  // ---------------------------------------------------------------------

  /** `setFullYear(y)` */
  function SetFullYear(dt: Date, y: int): Date {
    MakeDate(y, dt.month, dt.day, dt.hours, dt.minutes, dt.seconds, dt.ms)
  }

  /** `setFullYear(y, m, d)` */
  function SetFullYearMonthDate(dt: Date, y: int, m: int, d: int): Date {
    MakeDate(y, m, d, dt.hours, dt.minutes, dt.seconds, dt.ms)
  }

  /** `setMonth(m)` */
  function SetMonth(dt: Date, m: int): Date {
    MakeDate(dt.year, m, dt.day, dt.hours, dt.minutes, dt.seconds, dt.ms)
  }

  /** `setMonth(m, d)` */
  function SetMonthDate(dt: Date, m: int, d: int): Date {
    MakeDate(dt.year, m, d, dt.hours, dt.minutes, dt.seconds, dt.ms)
  }

  /** `setMonth(m, 0)` is the last day of the month before month `m`. */
  lemma SetMonthDayZero(dt: Date, m: int)
    ensures var p := PrevMonth(dt.year + m / 12, m % 12);
            SetMonthDate(dt, m, 0) == DateTime(p.0, p.1, DaysInMonth(p.0, p.1), dt.hours, dt.minutes, dt.seconds, dt.ms)
  {
    MakeDateDayZero(dt.year, m, dt.hours, dt.minutes, dt.seconds, dt.ms);
  }

  /** `setDate(d)` */
  function SetDate(dt: Date, d: int): Date {
    MakeDate(dt.year, dt.month, d, dt.hours, dt.minutes, dt.seconds, dt.ms)
  }

  /** `setHours(h)` */
  function SetHours(dt: Date, h: int): Date {
    MakeDate(dt.year, dt.month, dt.day, h, dt.minutes, dt.seconds, dt.ms)
  }

  /** `setMinutes(mi)` */
  function SetMinutes(dt: Date, mi: int): Date {
    MakeDate(dt.year, dt.month, dt.day, dt.hours, mi, dt.seconds, dt.ms)
  }

  /** `setSeconds(s)` */
  function SetSeconds(dt: Date, s: int): Date {
    MakeDate(dt.year, dt.month, dt.day, dt.hours, dt.minutes, s, dt.ms)
  }

  /** `setMilliseconds(ms)` */
  function SetMilliseconds(dt: Date, ms: int): Date {
    MakeDate(dt.year, dt.month, dt.day, dt.hours, dt.minutes, dt.seconds, ms)
  }

  // ---------------------------------------------------------------------
  // Rolling over: adding to one field moves the time value linearly.
  // ---------------------------------------------------------------------

  lemma SetDateShift(dt: Date, k: int)
    ensures TimeValue(SetDate(dt, dt.day + k)) == TimeValue(dt) + k * MsPerDay
  {
    assert dt.month / 12 == 0 && dt.month % 12 == dt.month;
  }

  lemma SetHoursShift(dt: Date, k: int)
    ensures TimeValue(SetHours(dt, dt.hours + k)) == TimeValue(dt) + k * MsPerHour
  {
    assert dt.month / 12 == 0 && dt.month % 12 == dt.month;
  }

  lemma SetMinutesShift(dt: Date, k: int)
    ensures TimeValue(SetMinutes(dt, dt.minutes + k)) == TimeValue(dt) + k * MsPerMinute
  {
    assert dt.month / 12 == 0 && dt.month % 12 == dt.month;
  }

  lemma SetSecondsShift(dt: Date, k: int)
    ensures TimeValue(SetSeconds(dt, dt.seconds + k)) == TimeValue(dt) + k * MsPerSecond
  {
    assert dt.month / 12 == 0 && dt.month % 12 == dt.month;
  }

  lemma SetMillisecondsShift(dt: Date, k: int)
    ensures TimeValue(SetMilliseconds(dt, dt.ms + k)) == TimeValue(dt) + k
  {
    assert dt.month / 12 == 0 && dt.month % 12 == dt.month;
  }
}
