/** The "Create Date" block: a date built from absolute fields ("beginning")
    or a base date ("current", "custom") moved by signed offsets, each step
    rolling over through the calendar. */
module CreateDate {
  import opened Results
  import opened Calendar
  import opened JsString
  import opened JsValue
  import opened Host

  /** The block's options list, from which the host derives defaults. */
  const Options: seq<BlockOption> :=
    [BlockOption("start_date", SelectOption(["current", "beginning", "custom"]))]

  function Min(a: int, b: int): int {
    if a <= b then a else b
  }

  /** The 0-based month `m` of year `y` moved by `amount` months, borrowing
      from or carrying into the year. */
  function TargetMonth(y: int, m: int, amount: int): (int, int) {
    (y + (m + amount) / 12, (m + amount) % 12)
  }

  /** One month before the month `amount + 1` months on is the month `amount` months on. */
  lemma TargetMonthPrev(y: int, m: int, amount: int)
    ensures PrevMonth(y + (m + amount + 1) / 12, (m + amount + 1) % 12) == TargetMonth(y, m, amount)
  {
  }

  /** Moving by `a` months and then by `b` months is moving by `a + b`. */
  lemma TargetMonthAdd(y: int, m: int, a: int, b: int)
    requires 0 <= m < 12
    ensures var (ty, tm) := TargetMonth(y, m, a);
            TargetMonth(ty, tm, b) == TargetMonth(y, m, a + b)
  {
    var n := m + a;
    assert n == 12 * (n / 12) + n % 12;
    var k := n % 12 + b;
    assert k == 12 * (k / 12) + k % 12;
    assert m + a + b == 12 * (n / 12 + k / 12) + k % 12;
  }

  /** `setMonth(month + amount + 1, 0)` lands on the last day of the target month. */
  lemma EndOfNewMonth(date: Date, amount: int)
    ensures var t := TargetMonth(date.year, date.month, amount);
            SetMonthDate(date, date.month + amount + 1, 0)
            == DateTime(t.0, t.1, DaysInMonth(t.0, t.1), date.hours, date.minutes, date.seconds, date.ms)
  {
    var mo := date.month + amount + 1;
    var t := TargetMonth(date.year, date.month, amount);
    SetMonthDayZero(date, mo);
    TargetMonthPrev(date.year, date.month, amount);
    var p := PrevMonth(date.year + mo / 12, mo % 12);
    assert p == t;
    assert SetMonthDate(date, mo, 0) == DateTime(p.0, p.1, DaysInMonth(p.0, p.1), date.hours, date.minutes, date.seconds, date.ms);
  }

  /** Setting a valid field combination is taking it as it is. */
  lemma MakeDateValid(y: int, mo: int, d: int, h: int, mi: int, s: int, ms: int)
    requires IsValid(DateTime(y, mo, d, h, mi, s, ms))
    ensures MakeDate(y, mo, d, h, mi, s, ms) == DateTime(y, mo, d, h, mi, s, ms)
  {
    MakeDateKeepsValid(DateTime(y, mo, d, h, mi, s, ms));
  }

  /** `setFullYear(y)` on 29 February when `y` is not a leap year gives 1 March. */
  lemma LeapDayRollsOver(date: Date, y: int)
    requires date.month == 1 && date.day == 29 && !IsLeapYear(y)
    ensures SetFullYear(date, y) == DateTime(y, 2, 1, date.hours, date.minutes, date.seconds, date.ms)
  {
    var c := DateTime(y, 2, 1, date.hours, date.minutes, date.seconds, date.ms);
    MakeDateIs(y, 1, 29, date.hours, date.minutes, date.seconds, date.ms, c);
  }

  /** `addMonths` as the source writes it: it sets the year and then, in a
      second call, the month, so a 29 February base whose target year is not
      a leap year is first rolled to 1 March and then moved to the 1st of the
      target month. */
  function AddMonthsAsWritten(date: Date, amount: int): (r: Date)
    ensures var (ty, tm) := TargetMonth(date.year, date.month, amount);
            && r.year == ty && r.month == tm
            && r.day == (if date.day >= DaysInMonth(ty, tm) then DaysInMonth(ty, tm)
                         else if date.month == 1 && date.day == 29 && !IsLeapYear(ty) then 1
                         else date.day)
            && r.hours == date.hours && r.minutes == date.minutes
            && r.seconds == date.seconds && r.ms == date.ms
  {
    var currentDay := date.day;
    var endOfNewMonth := SetMonthDate(date, date.month + amount + 1, 0);
    EndOfNewMonth(date, amount);
    if currentDay >= endOfNewMonth.day then
      endOfNewMonth
    else
      var withYear := SetFullYear(date, endOfNewMonth.year);
      var ty, tm := endOfNewMonth.year, endOfNewMonth.month;
      if date.month == 1 && date.day == 29 && !IsLeapYear(ty) then
        LeapDayRollsOver(date, ty);
        MakeDateValid(ty, tm, 1, date.hours, date.minutes, date.seconds, date.ms);
        SetMonth(withYear, tm)
      else
        MakeDateValid(ty, date.month, date.day, date.hours, date.minutes, date.seconds, date.ms);
        MakeDateValid(ty, tm, date.day, date.hours, date.minutes, date.seconds, date.ms);
        SetMonth(withYear, tm)
  }

  /** `addMonths` as intended (and as date-fns writes it): year, month and
      day set in one `setFullYear(y, m, d)` call. The day is kept unless the
      target month is shorter, in which case it is that month's last day. */
  function AddMonths(date: Date, amount: int): (r: Date)
    ensures var (ty, tm) := TargetMonth(date.year, date.month, amount);
            && r.year == ty && r.month == tm
            && r.day == Min(date.day, DaysInMonth(ty, tm))
            && r.hours == date.hours && r.minutes == date.minutes
            && r.seconds == date.seconds && r.ms == date.ms
  {
    var currentDay := date.day;
    var endOfNewMonth := SetMonthDate(date, date.month + amount + 1, 0);
    EndOfNewMonth(date, amount);
    if currentDay >= endOfNewMonth.day then
      endOfNewMonth
    else
      MakeDateValid(endOfNewMonth.year, endOfNewMonth.month, currentDay,
                    date.hours, date.minutes, date.seconds, date.ms);
      SetFullYearMonthDate(date, endOfNewMonth.year, endOfNewMonth.month, currentDay)
  }

  /** A 29 February base whose target year is not a leap year and whose
      target month has more than 29 days. */
  predicate LeapDayCase(date: Date, amount: int) {
    var (ty, tm) := TargetMonth(date.year, date.month, amount);
    date.month == 1 && date.day == 29 && !IsLeapYear(ty) && DaysInMonth(ty, tm) > 29
  }

  /** The two differ exactly in the leap-day case. */
  lemma AddMonthsAsWrittenDiffers(date: Date, amount: int)
    ensures AddMonthsAsWritten(date, amount) != AddMonths(date, amount) <==> LeapDayCase(date, amount)
  {
  }

  /** Outside the leap-day case the source's `addMonths` is the intended one. */
  lemma AddMonthsAgree(date: Date, amount: int)
    requires !LeapDayCase(date, amount)
    ensures AddMonthsAsWritten(date, amount) == AddMonths(date, amount)
  {
    AddMonthsAsWrittenDiffers(date, amount);
  }

  /** 2024-02-29 plus 13 months: the source gives 2025-03-01, the intended
      result is 2025-03-29. */
  lemma AddMonthsLeapDayCounterexample()
    ensures AddMonthsAsWritten(DateTime(2024, 1, 29, 0, 0, 0, 0), 13) == DateTime(2025, 2, 1, 0, 0, 0, 0)
    ensures AddMonths(DateTime(2024, 1, 29, 0, 0, 0, 0), 13) == DateTime(2025, 2, 29, 0, 0, 0, 0)
  {
    var base: Date := DateTime(2024, 1, 29, 0, 0, 0, 0);
    assert TargetMonth(2024, 1, 13) == (2025, 2);
    assert DaysInMonth(2025, 2) == 31 && !IsLeapYear(2025);
    var r1 := AddMonthsAsWritten(base, 13);
    assert r1.year == 2025 && r1.month == 2 && r1.day == 1;
    var r2 := AddMonths(base, 13);
    assert r2.year == 2025 && r2.month == 2 && r2.day == 29;
  }

  /** Adding no months changes nothing. */
  lemma AddMonthsZero(date: Date)
    ensures AddMonths(date, 0) == date
  {
    var r := AddMonths(date, 0);
    assert TargetMonth(date.year, date.month, 0) == (date.year, date.month) by {
      assert date.month / 12 == 0 && date.month % 12 == date.month;
    }
    assert r.day == date.day;
  }

  /** Adding no months changes nothing in the source's version either. */
  lemma AddMonthsAsWrittenZero(date: Date)
    ensures AddMonthsAsWritten(date, 0) == date
  {
    var r := AddMonthsAsWritten(date, 0);
    assert TargetMonth(date.year, date.month, 0) == (date.year, date.month) by {
      assert date.month / 12 == 0 && date.month % 12 == date.month;
    }
    assert r.day == date.day;
  }

  /** Month addition is associative while the day of month is at most 28;
      near the end of a month clamping breaks it. */
  lemma AddMonthsAssociative(date: Date, a: int, b: int)
    requires date.day <= 28
    ensures AddMonths(AddMonths(date, a), b) == AddMonths(date, a + b)
  {
    TargetMonthAdd(date.year, date.month, a, b);
  }

  lemma AddMonthsNotAssociative()
    ensures AddMonths(AddMonths(DateTime(2025, 0, 31, 0, 0, 0, 0), 1), 1) == DateTime(2025, 2, 28, 0, 0, 0, 0)
    ensures AddMonths(DateTime(2025, 0, 31, 0, 0, 0, 0), 2) == DateTime(2025, 2, 31, 0, 0, 0, 0)
  {
    var base: Date := DateTime(2025, 0, 31, 0, 0, 0, 0);
    assert TargetMonth(2025, 0, 1) == (2025, 1);
    var feb := AddMonths(base, 1);
    assert feb == DateTime(2025, 1, 28, 0, 0, 0, 0);
    assert TargetMonth(2025, 1, 1) == (2025, 2);
    assert TargetMonth(2025, 0, 2) == (2025, 2);
  }

  /** The signed offsets `addDate` applies, in the order it applies them. */
  datatype Delta = Delta(years: int, months: int, days: int, hours: int,
                         minutes: int, seconds: int, milliseconds: int)

  /** The milliseconds the day and time offsets add up to. */
  function OffsetMs(delta: Delta): int {
    delta.days * MsPerDay + delta.hours * MsPerHour + delta.minutes * MsPerMinute
    + delta.seconds * MsPerSecond + delta.milliseconds
  }

  /** The day, hour, minute, second and millisecond steps of `addDate`, each
      by its setter; together they shift the time value by `OffsetMs`. */
  function ShiftTime(date: Date, delta: Delta): (r: Date)
    ensures TimeValue(r) == TimeValue(date) + OffsetMs(delta)
  {
    var withDays := SetDate(date, date.day + delta.days);
    SetDateShift(date, delta.days);
    var withHours := SetHours(withDays, withDays.hours + delta.hours);
    SetHoursShift(withDays, delta.hours);
    var withMinutes := SetMinutes(withHours, withHours.minutes + delta.minutes);
    SetMinutesShift(withHours, delta.minutes);
    var withSeconds := SetSeconds(withMinutes, withMinutes.seconds + delta.seconds);
    SetSecondsShift(withMinutes, delta.seconds);
    SetMillisecondsShift(withSeconds, delta.milliseconds);
    SetMilliseconds(withSeconds, withSeconds.ms + delta.milliseconds)
  }

  /** `addDate`: years by `setFullYear`, then months by `addMonths` as the
      source writes it, then days, hours, minutes, seconds and milliseconds
      by their setters. From the day step on, each step shifts the time
      value by its amount. */
  function AddDate(base: Date, delta: Delta): Date {
    AfterYearStep(SetFullYear(base, base.year + delta.years), delta)
  }

  /** The steps of `addDate` after the year step, on the date `y` it gives. */
  function AfterYearStep(y: Date, delta: Delta): Date {
    ShiftTime(AddMonthsAsWritten(y, delta.months), delta)
  }

  /** `addDate` with the intended `addMonths`. */
  function AddDateIntended(base: Date, delta: Delta): Date {
    AfterYearStepIntended(SetFullYear(base, base.year + delta.years), delta)
  }

  function AfterYearStepIntended(y: Date, delta: Delta): Date {
    ShiftTime(AddMonths(y, delta.months), delta)
  }

  /** After the year step has given `y`, the two `addDate`s agree unless
      `y` is 29 February of a leap year and the month step leaves for a
      longer month of a common year (`AddDate(base, delta)` is this step on
      `SetFullYear(base, base.year + delta.years)`). */
  lemma AfterYearStepAgrees(y: Date, delta: Delta)
    requires !LeapDayCase(y, delta.months)
    ensures AfterYearStep(y, delta) == AfterYearStepIntended(y, delta)
  {
    AddMonthsAgree(y, delta.months);
  }

  /** With the intended `addMonths`, a months-only offset is month addition,
      which composes (`AddMonthsAssociative`) while the day is at most 28. */
  lemma AddDateIntendedMonths(base: Date, delta: Delta)
    requires delta.years == 0 && delta.days == 0 && delta.hours == 0
    requires delta.minutes == 0 && delta.seconds == 0 && delta.milliseconds == 0
    ensures AddDateIntended(base, delta) == AddMonths(base, delta.months)
  {
    SetFullYearSame(base, base.year + delta.years);
    ShiftTimeZero(AddMonths(base, delta.months), delta);
  }

  /** Setting the year a date already has changes nothing. */
  lemma SetFullYearSame(date: Date, y: int)
    requires y == date.year
    ensures SetFullYear(date, y) == date
  {
    MakeDateKeepsValid(date);
  }

  /** Offsets that add up to no time leave the date as it is. */
  lemma ShiftTimeZero(date: Date, delta: Delta)
    requires OffsetMs(delta) == 0
    ensures ShiftTime(date, delta) == date
  {
    TimeValueInjective(ShiftTime(date, delta), date);
  }

  /** Without a year offset, `addDate` is `addMonths` followed by the day and
      time steps. */
  lemma AddDateSameYear(base: Date, delta: Delta)
    requires delta.years == 0
    ensures AddDate(base, delta) == ShiftTime(AddMonthsAsWritten(base, delta.months), delta)
  {
    SetFullYearSame(base, base.year + delta.years);
  }

  const NoDelta := Delta(0, 0, 0, 0, 0, 0, 0)

  /** With no offsets the base date comes back unchanged. */
  lemma AddDateZero(base: Date)
    ensures AddDate(base, NoDelta) == base
  {
    AddDateSameYear(base, NoDelta);
    AddMonthsAsWrittenZero(base);
    ShiftTimeZero(base, NoDelta);
  }

  /** Without year or month offsets, `addDate` moves the time value by
      exactly the day and time offsets. */
  lemma AddDateOffsets(base: Date, delta: Delta)
    requires delta.years == 0 && delta.months == 0
    ensures TimeValue(AddDate(base, delta)) == TimeValue(base) + OffsetMs(delta)
  {
    AddDateSameYear(base, delta);
    AddMonthsAsWrittenZero(base);
  }

  /** A months-only offset is the source's `addMonths`. */
  lemma AddDateMonths(base: Date, delta: Delta)
    requires delta.years == 0 && delta.days == 0 && delta.hours == 0
    requires delta.minutes == 0 && delta.seconds == 0 && delta.milliseconds == 0
    ensures AddDate(base, delta) == AddMonthsAsWritten(base, delta.months)
  {
    AddDateSameYear(base, delta);
    ShiftTimeZero(AddMonthsAsWritten(base, delta.months), delta);
  }

  // Cases of the table in test/create-date.test.ts (months are 0-based here).

  lemma YearBackExample()
    ensures AddDate(DateTime(2024, 11, 2, 0, 0, 0, 0), Delta(-1, 0, 0, 0, 0, 0, 0)) == DateTime(2023, 11, 2, 0, 0, 0, 0)
  {
    var base: Date := DateTime(2024, 11, 2, 0, 0, 0, 0);
    var want: Date := DateTime(2023, 11, 2, 0, 0, 0, 0);
    MakeDateValid(2023, 11, 2, 0, 0, 0, 0);
    AddMonthsAsWrittenZero(want);
    TimeValueInjective(AddDate(base, Delta(-1, 0, 0, 0, 0, 0, 0)), want);
  }

  lemma MonthsBackAcrossYearExample()
    ensures AddDate(DateTime(2025, 0, 31, 0, 0, 0, 0), Delta(0, -2, 0, 0, 0, 0, 0)) == DateTime(2024, 10, 30, 0, 0, 0, 0)
  {
    assert TargetMonth(2025, 0, -2) == (2024, 10) by {
      assert -2 / 12 == -1 && -2 % 12 == 10;
    }
    AddDateMonths(DateTime(2025, 0, 31, 0, 0, 0, 0), Delta(0, -2, 0, 0, 0, 0, 0));
  }

  lemma MonthsForwardAcrossYearExample()
    ensures AddDate(DateTime(2024, 10, 30, 0, 0, 0, 0), Delta(0, 2, 0, 0, 0, 0, 0)) == DateTime(2025, 0, 30, 0, 0, 0, 0)
  {
    assert TargetMonth(2024, 10, 2) == (2025, 0) by {
      assert 12 / 12 == 1 && 12 % 12 == 0;
    }
    AddDateMonths(DateTime(2024, 10, 30, 0, 0, 0, 0), Delta(0, 2, 0, 0, 0, 0, 0));
  }

  lemma DayBackAcrossMonthExample()
    ensures AddDate(DateTime(2024, 10, 1, 0, 0, 0, 0), Delta(0, 0, -1, 0, 0, 0, 0)) == DateTime(2024, 9, 31, 0, 0, 0, 0)
  {
    var base: Date := DateTime(2024, 10, 1, 0, 0, 0, 0);
    var want: Date := DateTime(2024, 9, 31, 0, 0, 0, 0);
    AddDateOffsets(base, Delta(0, 0, -1, 0, 0, 0, 0));
    assert DayNumber(2024, 9, 31) + 1 == DayNumber(2024, 10, 1) by {
      MonthStep(2024, 9);
    }
    assert TimeValue(want) == TimeValue(base) - MsPerDay;
    TimeValueInjective(AddDate(base, Delta(0, 0, -1, 0, 0, 0, 0)), want);
  }

  lemma HourBackAcrossDayExample()
    ensures AddDate(DateTime(2024, 11, 2, 0, 0, 0, 0), Delta(0, 0, 0, -1, 0, 0, 0)) == DateTime(2024, 11, 1, 23, 0, 0, 0)
  {
    var base: Date := DateTime(2024, 11, 2, 0, 0, 0, 0);
    var want: Date := DateTime(2024, 11, 1, 23, 0, 0, 0);
    AddDateOffsets(base, Delta(0, 0, 0, -1, 0, 0, 0));
    assert TimeValue(want) == TimeValue(base) - MsPerHour;
    TimeValueInjective(AddDate(base, Delta(0, 0, 0, -1, 0, 0, 0)), want);
  }

  lemma MillisecondBackAcrossSecondExample()
    ensures AddDate(DateTime(2024, 11, 2, 23, 0, 1, 0), Delta(0, 0, 0, 0, 0, 0, -1)) == DateTime(2024, 11, 2, 23, 0, 0, 999)
  {
    var base: Date := DateTime(2024, 11, 2, 23, 0, 1, 0);
    var want: Date := DateTime(2024, 11, 2, 23, 0, 0, 999);
    AddDateOffsets(base, Delta(0, 0, 0, 0, 0, 0, -1));
    assert TimeValue(want) == TimeValue(base) - 1;
    TimeValueInjective(AddDate(base, Delta(0, 0, 0, 0, 0, 0, -1)), want);
  }

  /** `fixedDate`: `new Date(0, m, d, h, mi, s, ms)` (a first argument in
      0..99 means 1900 + it), then `setFullYear(year)`. Overflowing fields
      are normalised within 1900 and the year is then replaced. */
  function FixedDate(year: int, month: int, day: int, hours: int, minutes: int, seconds: int, ms: int): (r: Date)
    ensures var b := MakeDate(1900, month, day, hours, minutes, seconds, ms);
            && r.year == year
            && (if b.month == 1 && b.day == 29 && !IsLeapYear(year)
                then r.month == 2 && r.day == 1
                else r.month == b.month && r.day == b.day)
            && r.hours == b.hours && r.minutes == b.minutes && r.seconds == b.seconds && r.ms == b.ms
  {
    var b := MakeDate(1900, month, day, hours, minutes, seconds, ms);
    if b.month == 1 && b.day == 29 && !IsLeapYear(year) then
      LeapDayRollsOver(b, year);
      SetFullYear(b, year)
    else
      MakeDateValid(year, b.month, b.day, b.hours, b.minutes, b.seconds, b.ms);
      SetFullYear(b, year)
  }

  /** In-range fields are taken as they are, provided the day also exists in 1900. */
  lemma FixedDateInRange(year: int, month: int, day: int, hours: int, minutes: int, seconds: int, ms: int)
    requires 0 <= month < 12 && 1 <= day <= DaysInMonth(1900, month)
    requires 0 <= hours < 24 && 0 <= minutes < 60 && 0 <= seconds < 60 && 0 <= ms < 1000
    ensures FixedDate(year, month, day, hours, minutes, seconds, ms) == DateTime(year, month, day, hours, minutes, seconds, ms)
  {
    MakeDateValid(1900, month, day, hours, minutes, seconds, ms);
  }

  /** Day 0 of January 1900 is 31 December 1899, so all-zero fields give
      31 December of the requested year. */
  lemma FixedDateAllZero(year: int)
    ensures FixedDate(year, 0, 0, 0, 0, 0, 0) == DateTime(year, 11, 31, 0, 0, 0, 0)
  {
    var c := DateTime(1899, 11, 31, 0, 0, 0, 0);
    YearStep(1899);
    MakeDateIs(1900, 0, 0, 0, 0, 0, 0, c);
  }

  /** Month 49 of 1900 is February 1904, a leap year, so day 29 exists in
      the 1900-based date and then rolls over when the requested year is
      common: the leap-day branch of `FixedDate` is reachable. */
  lemma FixedDateLeapDay()
    ensures MakeDate(1900, 49, 29, 0, 0, 0, 0) == DateTime(1904, 1, 29, 0, 0, 0, 0)
    ensures FixedDate(2025, 49, 29, 0, 0, 0, 0) == DateTime(2025, 2, 1, 0, 0, 0, 0)
  {
    MakeDateIs(1900, 49, 29, 0, 0, 0, 0, DateTime(1904, 1, 29, 0, 0, 0, 0));
  }

  // ---------------------------------------------------------------------
  // The block's inputs and its code.
  // ---------------------------------------------------------------------

  /** `parseInt(v)`, by the kind of input: the string form of `undefined`,
      `null`, a boolean, a Date, a Set or a plain object starts with a letter
      or a bracket and reads as NaN (`ParsedIntIsParseInt`). */
  function ParsedInt(v: Value): Option<int> {
    match v
    case Num(n) => ParseInt(NumberToString(n))
    case Str(s) => ParseInt(s)
    case Arr(xs) => ParseInt(JoinElements(xs))
    case _ => None
  }

  /** `ParsedInt` is `parseInt` of the string form, for every input. */
  lemma ParsedIntIsParseInt(v: Value)
    ensures ParsedInt(v) == ParseInt(ToString(v))
  {
    if !(v.Num? || v.Str? || v.Arr?) {
      var s := ToString(v);
      assert s[..0] == [];
      ParseIntNaN(s, 0);
    }
  }

  /** A number input reads as itself. */
  lemma ParsedIntOfNumber(n: int)
    ensures ParsedInt(Num(n)) == Some(n)
  {
    ParseIntOfNumber(n);
  }

  /** A string input reads as its leading digits, after white space. */
  lemma ParsedIntOfString(w: string, d: string, rest: string)
    requires AllWhiteSpace(w) && |d| >= 1 && AllDigits(d)
    requires rest == [] || !IsDigit(rest[0])
    requires d == "0" ==> rest == [] || (rest[0] != 'x' && rest[0] != 'X')
    ensures ParsedInt(Str(w + d + rest)) == Some(DigitsValue(d))
  {
    ParseIntDecimal(w, d, rest);
  }

  /** `x || 0` on a parsed integer: NaN (and 0) become 0. */
  function OrZero(x: Option<int>): int {
    x.GetOr(0)
  }

  /** `month - 1 || 0`: a 1-based month made 0-based; a NaN month is January. */
  function BeginningMonth(month: Option<int>): int {
    match month
    case Some(m) => m - 1
    case None => 0
  }

  datatype StartDate = Current | Beginning | Custom

  /** The `switch (start_date)`: anything but "beginning" or "custom" is "current". */
  function StartDateOf(v: Value): StartDate {
    if v == Str("beginning") then Beginning
    else if v == Str("custom") then Custom
    else Current
  }

  /** The numeric inputs as `code()` reads them. */
  datatype Fields = Fields(year: int, month: Option<int>, day: int, hours: int,
                           minutes: int, seconds: int, milliseconds: int)

  function ReadFields(inputs: map<string, Value>): Fields {
    Fields(OrZero(ParsedInt(Get(inputs, "year"))),
           ParsedInt(Get(inputs, "month")),
           OrZero(ParsedInt(Get(inputs, "day"))),
           OrZero(ParsedInt(Get(inputs, "hours"))),
           OrZero(ParsedInt(Get(inputs, "minutes"))),
           OrZero(ParsedInt(Get(inputs, "seconds"))),
           OrZero(ParsedInt(Get(inputs, "milliseconds"))))
  }

  /** The offsets of the additive modes; a NaN month is no months (`month || 0`). */
  function DeltaOf(f: Fields): Delta {
    Delta(f.year, OrZero(f.month), f.day, f.hours, f.minutes, f.seconds, f.milliseconds)
  }

  /** The largest time value a Date holds, 8.64 * 10^15 ms either side of the epoch. */
  const MaxTimeValue: int := 8_640_000_000_000_000

  /** `TimeClip`: a time value out of range gives an Invalid Date. */
  function TimeClip(tv: int): (r: MaybeDate)
    ensures r.ValidDate? <==> -MaxTimeValue <= tv <= MaxTimeValue
    ensures r.ValidDate? ==> TimeValue(r.date) == tv
  {
    if -MaxTimeValue <= tv <= MaxTimeValue then ValidDate(DateOf(tv)) else InvalidDate
  }

  /** `new Date(value)`: a Date gives its own time value; a string, and an
      object through its string form, goes to `Date.parse`, given here as
      `dateParse` since its accepted formats beyond ISO are up to the engine;
      any other value is converted to a number (`undefined` is NaN, `null`
      is 0, a boolean 0 or 1). */
  function NewDate(value: Value, dateParse: string -> MaybeDate): MaybeDate {
    match value
    case DateObj(t) => t
    case Undefined => InvalidDate
    case Null => TimeClip(0)
    case Bool(b) => TimeClip(if b then 1 else 0)
    case Num(n) => TimeClip(n)
    case Str(s) => dateParse(s)
    case Arr(_) => dateParse(ToString(value))
    case SetObj(_) => dateParse(ToString(value))
    case Iterable(_) => dateParse(ToString(value))
    case Obj(_) => dateParse(ToString(value))
  }

  /** `addDate(custom_date)`: `new Date(custom_date)`, then the offsets; an
      Invalid Date stays invalid through every setter. */
  function AddToInput(customDate: Value, delta: Delta, dateParse: string -> MaybeDate): MaybeDate {
    match NewDate(customDate, dateParse)
    case ValidDate(d) => ValidDate(AddDate(d, delta))
    case InvalidDate => InvalidDate
  }

  /** A Date input with no offsets comes back as it is, valid or not. */
  lemma AddToInputNoDelta(t: MaybeDate, dateParse: string -> MaybeDate)
    ensures AddToInput(DateObj(t), NoDelta, dateParse) == t
  {
    assert NewDate(DateObj(t), dateParse) == t;
    match t
    case InvalidDate =>
    case ValidDate(d) => AddDateZero(d);
  }

  /** The date of each start mode, from the numeric fields, the
      "custom_date" input, the wall clock reading `now` and the engine's
      date parser. */
  function DateFor(start: StartDate, f: Fields, customDate: Value, now: Date, dateParse: string -> MaybeDate): MaybeDate {
    match start
    case Beginning =>
      ValidDate(FixedDate(f.year, BeginningMonth(f.month), f.day, f.hours, f.minutes, f.seconds, f.milliseconds))
    case Custom => AddToInput(customDate, DeltaOf(f), dateParse)
    case Current => ValidDate(AddDate(now, DeltaOf(f)))
  }

  /** The date the block stores for the given inputs and options. */
  function CreatedDate(inputs: map<string, Value>, options: map<string, Value>, now: Date,
                       dateParse: string -> MaybeDate): MaybeDate {
    DateFor(StartDateOf(Get(options, "start_date")), ReadFields(inputs), Get(inputs, "custom_date"), now, dateParse)
  }

  /** `code()`: read the inputs, build the date, store it under "date" and fire "action". */
  method Code(dbb: DBBMock, cache: Cache, now: Date, dateParse: string -> MaybeDate)
    modifies cache`outputs
    ensures cache.outputs == old(cache.outputs)["date" := DateObj(CreatedDate(cache.inputs, cache.options, now, dateParse))]
                                               ["action" := Called]
  {
    var year := OrZero(ParsedInt(dbb.GetInputValue("year", cache)));
    var month := ParsedInt(dbb.GetInputValue("month", cache));
    var day := OrZero(ParsedInt(dbb.GetInputValue("day", cache)));
    var hours := OrZero(ParsedInt(dbb.GetInputValue("hours", cache)));
    var minutes := OrZero(ParsedInt(dbb.GetInputValue("minutes", cache)));
    var seconds := OrZero(ParsedInt(dbb.GetInputValue("seconds", cache)));
    var milliseconds := OrZero(ParsedInt(dbb.GetInputValue("milliseconds", cache)));
    var customDate := dbb.GetInputValue("custom_date", cache);
    var startDate := dbb.GetOptionValue("start_date", cache);
    var fields := Fields(year, month, day, hours, minutes, seconds, milliseconds);
    assert fields == ReadFields(cache.inputs);

    var date := DateFor(StartDateOf(startDate), fields, customDate, now, dateParse);
    ghost var inputs, options := cache.inputs, cache.options;
    assert date == CreatedDate(inputs, options, now, dateParse);

    dbb.StoreOutputValue(DateObj(date), "date", cache);
    dbb.RunNextBlock("action", cache);
    assert cache.inputs == inputs && cache.options == options;
  }

  /** `DBBMock.runBlock(createDate, inputs, overrides)`: every run stores
      exactly one date and fires "action". */
  method RunBlock(inputs: map<string, Value>, overrides: map<string, Value>, now: Date,
                  dateParse: string -> MaybeDate)
    returns (cache: Cache)
    ensures fresh(cache)
    ensures cache.outputs == map["date" := DateObj(CreatedDate(inputs, MergeOptions(Defaults(Options), overrides), now, dateParse)),
                                 "action" := Called]
  {
    var dbb;
    dbb, cache := DBBMock.PrepareRun(Options, inputs, overrides);
    Code(dbb, cache, now, dateParse);
  }

  /** Without the numeric inputs every field is NaN, read as no offset. */
  lemma FieldsWithoutNumbers(inputs: map<string, Value>)
    requires "year" !in inputs && "month" !in inputs && "day" !in inputs && "hours" !in inputs
    requires "minutes" !in inputs && "seconds" !in inputs && "milliseconds" !in inputs
    ensures ReadFields(inputs) == Fields(0, None, 0, 0, 0, 0, 0)
    ensures DeltaOf(ReadFields(inputs)) == NoDelta
  {
  }

  /** With no inputs, "current" gives the wall clock reading itself. */
  lemma CurrentWithoutInputs(now: Date, dateParse: string -> MaybeDate)
    ensures CreatedDate(map[], map["start_date" := Str("current")], now, dateParse) == ValidDate(now)
  {
    assert StartDateOf(Get(map["start_date" := Str("current")], "start_date")) == Current;
    FieldsWithoutNumbers(map[]);
    AddDateZero(now);
  }

  /** With no inputs, "beginning" gives 31 December of year 0, midnight. */
  lemma BeginningWithoutInputs(now: Date, dateParse: string -> MaybeDate)
    ensures CreatedDate(map[], map["start_date" := Str("beginning")], now, dateParse)
            == ValidDate(DateTime(0, 11, 31, 0, 0, 0, 0))
  {
    assert StartDateOf(Get(map["start_date" := Str("beginning")], "start_date")) == Beginning;
    FieldsWithoutNumbers(map[]);
    FixedDateAllZero(0);
  }

  /** "beginning" takes the year, the 1-based month and the day as given. */
  lemma BeginningExample(now: Date, dateParse: string -> MaybeDate)
    ensures DateFor(Beginning, Fields(2024, Some(1), 1, 0, 0, 0, 0), Undefined, now, dateParse)
            == ValidDate(DateTime(2024, 0, 1, 0, 0, 0, 0))
  {
    FixedDateInRange(2024, 0, 1, 0, 0, 0, 0);
  }

  /** With no offsets, "custom" gives the custom date back, valid or not. */
  lemma CustomWithoutOffsets(t: MaybeDate, now: Date, dateParse: string -> MaybeDate)
    ensures CreatedDate(map["custom_date" := DateObj(t)], map["start_date" := Str("custom")], now, dateParse) == t
  {
    var inputs := map["custom_date" := DateObj(t)];
    var options := map["start_date" := Str("custom")];
    assert StartDateOf(Get(options, "start_date")) == Custom;
    FieldsWithoutNumbers(inputs);
    assert Get(inputs, "custom_date") == DateObj(t);
    assert CreatedDate(inputs, options, now, dateParse) == AddToInput(DateObj(t), NoDelta, dateParse);
    AddToInputNoDelta(t, dateParse);
  }

  /** "custom" without a custom date is an Invalid Date: `new Date(undefined)`. */
  lemma CustomWithoutDate(inputs: map<string, Value>, now: Date, dateParse: string -> MaybeDate)
    requires "custom_date" !in inputs
    ensures CreatedDate(inputs, map["start_date" := Str("custom")], now, dateParse) == InvalidDate
  {
    assert StartDateOf(Get(map["start_date" := Str("custom")], "start_date")) == Custom;
  }

  /** A number as custom date is a time value: with no offsets the block
      stores the date of that time value, or an Invalid Date out of range. */
  lemma CustomTimeValue(n: int, now: Date, dateParse: string -> MaybeDate)
    ensures var r := CreatedDate(map["custom_date" := Num(n)], map["start_date" := Str("custom")], now, dateParse);
            && (r.ValidDate? <==> -MaxTimeValue <= n <= MaxTimeValue)
            && (r.ValidDate? ==> TimeValue(r.date) == n)
  {
    var inputs := map["custom_date" := Num(n)];
    assert StartDateOf(Get(map["start_date" := Str("custom")], "start_date")) == Custom;
    FieldsWithoutNumbers(inputs);
    assert Get(inputs, "custom_date") == Num(n);
    AddToInputNumber(n, dateParse);
  }

  /** A number with no offsets is its time value, clipped. */
  lemma AddToInputNumber(n: int, dateParse: string -> MaybeDate)
    ensures AddToInput(Num(n), NoDelta, dateParse) == TimeClip(n)
  {
    assert NewDate(Num(n), dateParse) == TimeClip(n);
    match TimeClip(n)
    case InvalidDate =>
    case ValidDate(d) => AddDateZero(d);
  }
}
