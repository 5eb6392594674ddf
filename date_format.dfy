/** The two text forms of a Date the blocks produce: `String(date)`
    (ECMA-262 section 21.4.4.41, which `parseInt` and template literals
    see) and `date.toISOString()` (section 21.4.4.36, which `JSON.stringify`
    reaches through `toJSON`). Local time is UTC throughout. */
module DateFormat {
  import opened Results
  import opened Calendar
  import opened JsString

  // ---------------------------------------------------------------------
  // Zero-padded decimal fields.
  // ---------------------------------------------------------------------

  function Pow10(k: nat): nat {
    if k == 0 then 1 else 10 * Pow10(k - 1)
  }

  /** A number below 10^k has at most k decimal digits. */
  lemma {:induction false} DecimalStringBelow(n: nat, k: nat)
    requires 1 <= k && n < Pow10(k)
    ensures |DecimalString(n)| <= k
    decreases n
  {
    if n >= 10 {
      assert k >= 2;
      assert n / 10 < Pow10(k - 1);
      DecimalStringBelow(n / 10, k - 1);
    }
  }

  /** A leading zero does not change the value of a run of digits. */
  lemma {:induction false} LeadingZero(s: string)
    requires AllDigits(s)
    ensures AllDigits("0" + s) && DigitsValue("0" + s) == DigitsValue(s)
    decreases |s|
  {
    var t := "0" + s;
    if s == [] {
      assert t[..0] == [];
    } else {
      assert t[..|t| - 1] == "0" + s[..|s| - 1];
      LeadingZero(s[..|s| - 1]);
    }
  }

  /** `ToZeroPaddedDecimalString(n, width)`: the decimal form of `n` with
      zeros in front up to `width` digits. */
  function ZeroPad(n: nat, width: nat): (r: string)
    ensures AllDigits(r) && DigitsValue(r) == n
    ensures |r| == if |DecimalString(n)| >= width then |DecimalString(n)| else width
    decreases width
  {
    if |DecimalString(n)| >= width then
      DecimalStringValue(n);
      DecimalString(n)
    else
      LeadingZero(ZeroPad(n, width - 1));
      "0" + ZeroPad(n, width - 1)
  }

  /** Two digits for a field below 100. */
  function Pad2(n: nat): (r: string)
    requires n < 100
    ensures |r| == 2 && AllDigits(r) && DigitsValue(r) == n
  {
    DecimalStringBelow(n, 2);
    ZeroPad(n, 2)
  }

  /** Three digits for a field below 1000. */
  function Pad3(n: nat): (r: string)
    requires n < 1000
    ensures |r| == 3 && AllDigits(r) && DigitsValue(r) == n
  {
    DecimalStringBelow(n, 3);
    ZeroPad(n, 3)
  }

  // ---------------------------------------------------------------------
  // String(date).
  // ---------------------------------------------------------------------

  const WeekdayNames: seq<string> := ["Sun", "Mon", "Tue", "Wed", "Thu", "Fri", "Sat"]
  const MonthNames: seq<string> :=
    ["Jan", "Feb", "Mar", "Apr", "May", "Jun", "Jul", "Aug", "Sep", "Oct", "Nov", "Dec"]

  /** `WeekDay(t)`: 0 is Sunday; day 0 of the epoch, 1 January 1970, was a Thursday. */
  function WeekDay(d: Date): (r: int)
    ensures 0 <= r < 7
  {
    (DayNumber(d.year, d.month, d.day) + 4) % 7
  }

  /** `DateString(tv)`: weekday, month, day and a year of at least four
      digits, with a minus sign before the years before year 0. */
  function DateString(d: Date): string {
    WeekdayNames[WeekDay(d)] + " " + MonthNames[d.month] + " " + Pad2(d.day) + " "
    + (if d.year >= 0 then "" else "-")
    + ZeroPad(if d.year >= 0 then d.year else -d.year, 4)
  }

  /** `TimeString(tv)`: hours, minutes and seconds, then " GMT". */
  function TimeString(d: Date): string {
    Pad2(d.hours) + ":" + Pad2(d.minutes) + ":" + Pad2(d.seconds) + " GMT"
  }

  /** `ToDateString(tv)` with a UTC offset of zero; the zone name in
      parentheses is the one V8 writes for UTC. */
  function DateToString(d: Date): (r: string)
    ensures |r| >= 3 && r[..3] == WeekdayNames[WeekDay(d)]
    ensures 'A' <= r[0] <= 'Z'
  {
    var r := DateString(d) + " " + TimeString(d) + "+0000 (Coordinated Universal Time)";
    DateStringStart(d);
    assert r[..3] == DateString(d)[..3];
    r
  }

  /** The date part opens with the three-letter, capitalised weekday. */
  lemma DateStringStart(d: Date)
    ensures |DateString(d)| >= 3 && DateString(d)[..3] == WeekdayNames[WeekDay(d)]
    ensures 'A' <= DateString(d)[0] <= 'Z'
  {
    var w := WeekdayNames[WeekDay(d)];
    assert |w| == 3 && 'A' <= w[0] <= 'Z';
    var s := DateString(d);
    assert s == w + s[3..];
  }

  lemma EpochFields()
    ensures Pad2(0) == "00" && Pad2(1) == "01" && ZeroPad(1970, 4) == "1970"
  {
    assert ZeroPad(0, 1) == "0";
    assert ZeroPad(1, 1) == "1";
    assert DecimalString(19) == "19";
    assert DecimalString(197) == "197";
    assert DecimalString(1970) == "1970";
  }

  /** The epoch reads as "Thu Jan 01 1970 00:00:00 GMT+0000 (Coordinated
      Universal Time)": its date part ... */
  lemma EpochDateString()
    ensures DateString(DateTime(1970, 0, 1, 0, 0, 0, 0)) == "Thu Jan 01 1970"
  {
    var d: Date := DateTime(1970, 0, 1, 0, 0, 0, 0);
    EpochWeekDay();
    DateStringOfFields(d, "Thu", "Jan", "01", "1970");
    EpochFields();
  }

  /** 1 January 1970 was a Thursday. */
  lemma EpochWeekDay()
    ensures WeekDay(DateTime(1970, 0, 1, 0, 0, 0, 0)) == 4
  {
  }

  lemma DateStringOfFields(d: Date, wd: string, mon: string, day: string, year: string)
    requires 0 <= d.year && WeekdayNames[WeekDay(d)] == wd && MonthNames[d.month] == mon
    requires Pad2(d.day) == day && ZeroPad(d.year, 4) == year
    ensures DateString(d) == wd + " " + mon + " " + day + " " + year
  {
  }

  /** ... and its time part. */
  lemma EpochTimeString()
    ensures TimeString(DateTime(1970, 0, 1, 0, 0, 0, 0)) == "00:00:00 GMT"
  {
    EpochFields();
  }

  // ---------------------------------------------------------------------
  // toISOString and a reader for it.
  // ---------------------------------------------------------------------

  /** The year of the ISO form: four digits in 0..9999, otherwise a sign
      and at least six digits (the expanded years of section 21.4.1.32.2). */
  function IsoYear(year: int): (r: string)
    ensures |r| >= 4 && (0 <= year <= 9999 <==> |r| == 4)
  {
    if 0 <= year <= 9999 then
      DecimalStringBelow(year, 4);
      ZeroPad(year, 4)
    else if year < 0 then "-" + ZeroPad(-year, 6)
    else "+" + ZeroPad(year, 6)
  }

  /** "-MM-DDTHH:mm:ss.sssZ" from its six digit fields. */
  function IsoTailOf(mo: string, dd: string, hh: string, mi: string, ss: string, ms: string): (r: string)
    requires |mo| == 2 && |dd| == 2 && |hh| == 2 && |mi| == 2 && |ss| == 2 && |ms| == 3
    ensures |r| == 20
  {
    ['-', mo[0], mo[1], '-', dd[0], dd[1], 'T', hh[0], hh[1], ':', mi[0], mi[1],
     ':', ss[0], ss[1], '.', ms[0], ms[1], ms[2], 'Z']
  }

  /** The part after the year, with a 1-based month. */
  function IsoTail(d: Date): (r: string)
    ensures |r| == 20
  {
    IsoTailOf(Pad2(d.month + 1), Pad2(d.day), Pad2(d.hours), Pad2(d.minutes), Pad2(d.seconds), Pad3(d.ms))
  }

  /** `Date.prototype.toISOString()` of a date that holds a time value. */
  function ToIsoString(d: Date): (r: string)
    ensures |r| >= 24 && r[|r| - 1] == 'Z'
    ensures 0 <= d.year <= 9999 ==> |r| == 24
  {
    IsoYear(d.year) + IsoTail(d)
  }

  /** Reads back a year written by `IsoYear`: plain digits, or a sign and digits. */
  function ParseIsoYear(h: string): Option<int> {
    if |h| >= 1 && AllDigits(h) then Some(DigitsValue(h))
    else if |h| >= 2 && (h[0] == '+' || h[0] == '-') && AllDigits(h[1..]) then
      var v: int := DigitsValue(h[1..]);
      Some(if h[0] == '-' then -v else v)
    else None
  }

  /** The `w`-digit field at `i`, if it is digits. */
  function IsoField(t: string, i: nat, w: nat): Option<int>
    requires i + w <= |t|
  {
    if AllDigits(t[i..i + w]) then Some(DigitsValue(t[i..i + w])) else None
  }

  /** Reads back the 20 characters after the year: the separators must be
      in place and every field must be digits. */
  function ParseIsoTail(t: string): Option<(int, int, int, int, int, int)>
    requires |t| == 20
  {
    if t[0] != '-' || t[3] != '-' || t[6] != 'T' || t[9] != ':' || t[12] != ':'
       || t[15] != '.' || t[19] != 'Z' then None
    else
      var mo, d, h, mi, sec, ms :=
        IsoField(t, 1, 2), IsoField(t, 4, 2), IsoField(t, 7, 2),
        IsoField(t, 10, 2), IsoField(t, 13, 2), IsoField(t, 16, 3);
      if mo.None? || d.None? || h.None? || mi.None? || sec.None? || ms.None? then None
      else Some((mo.value - 1, d.value, h.value, mi.value, sec.value, ms.value))
  }

  /** Reads an ISO date-time in the form `toISOString` writes. */
  function ParseIso(s: string): Option<DateTime> {
    if |s| < 21 then None
    else
      match (ParseIsoYear(s[..|s| - 20]), ParseIsoTail(s[|s| - 20..]))
      case (Some(y), Some((mo, d, h, mi, sec, ms))) => Some(DateTime(y, mo, d, h, mi, sec, ms))
      case _ => None
  }

  lemma ParseIsoYearOf(year: int)
    ensures ParseIsoYear(IsoYear(year)) == Some(year)
  {
    if 0 <= year <= 9999 {
      assert IsoYear(year) == ZeroPad(year, 4);
    } else if year < 0 {
      assert IsoYear(year) == "-" + ZeroPad(-year, 6);
      ParseSignedYear('-', ZeroPad(-year, 6));
    } else {
      assert IsoYear(year) == "+" + ZeroPad(year, 6);
      ParseSignedYear('+', ZeroPad(year, 6));
    }
  }

  /** A sign followed by digits reads back as the signed value. */
  lemma ParseSignedYear(sign: char, z: string)
    requires sign == '-' || sign == '+'
    requires |z| >= 1 && AllDigits(z)
    ensures ParseIsoYear([sign] + z) == Some(if sign == '-' then -(DigitsValue(z) as int) else DigitsValue(z) as int)
  {
    var h := [sign] + z;
    assert !IsDigit(h[0]);
    assert h[1..] == z;
  }

  /** A two-digit field of the tail reads back as the digits written there. */
  lemma Field2At(t: string, i: nat, f: string)
    requires |f| == 2 && AllDigits(f) && i + 2 <= |t|
    requires t[i] == f[0] && t[i + 1] == f[1]
    ensures IsoField(t, i, 2) == Some(DigitsValue(f))
  {
    assert t[i..i + 2] == f;
  }

  lemma Field3At(t: string, i: nat, f: string)
    requires |f| == 3 && AllDigits(f) && i + 3 <= |t|
    requires t[i] == f[0] && t[i + 1] == f[1] && t[i + 2] == f[2]
    ensures IsoField(t, i, 3) == Some(DigitsValue(f))
  {
    assert t[i..i + 3] == f;
  }

  /** With the separators in place, the tail reader returns its six fields. */
  lemma ParseIsoTailFields(t: string, mo: int, d: int, h: int, mi: int, sec: int, ms: int)
    requires |t| == 20
    requires t[0] == '-' && t[3] == '-' && t[6] == 'T' && t[9] == ':' && t[12] == ':'
             && t[15] == '.' && t[19] == 'Z'
    requires IsoField(t, 1, 2) == Some(mo) && IsoField(t, 4, 2) == Some(d) && IsoField(t, 7, 2) == Some(h)
    requires IsoField(t, 10, 2) == Some(mi) && IsoField(t, 13, 2) == Some(sec) && IsoField(t, 16, 3) == Some(ms)
    ensures ParseIsoTail(t) == Some((mo - 1, d, h, mi, sec, ms))
  {
  }

  /** The date fields of `IsoTailOf` read back as their digits ... */
  lemma DateFieldsOf(mo: string, dd: string, hh: string, mi: string, ss: string, ms: string)
    requires |mo| == 2 && |dd| == 2 && |hh| == 2 && |mi| == 2 && |ss| == 2 && |ms| == 3
    requires AllDigits(mo) && AllDigits(dd) && AllDigits(hh)
    ensures var t := IsoTailOf(mo, dd, hh, mi, ss, ms);
            IsoField(t, 1, 2) == Some(DigitsValue(mo)) && IsoField(t, 4, 2) == Some(DigitsValue(dd))
            && IsoField(t, 7, 2) == Some(DigitsValue(hh))
  {
    var t := IsoTailOf(mo, dd, hh, mi, ss, ms);
    Field2At(t, 1, mo);
    Field2At(t, 4, dd);
    Field2At(t, 7, hh);
  }

  /** ... and so do its time fields. */
  lemma TimeFieldsOf(mo: string, dd: string, hh: string, mi: string, ss: string, ms: string)
    requires |mo| == 2 && |dd| == 2 && |hh| == 2 && |mi| == 2 && |ss| == 2 && |ms| == 3
    requires AllDigits(mi) && AllDigits(ss) && AllDigits(ms)
    ensures var t := IsoTailOf(mo, dd, hh, mi, ss, ms);
            IsoField(t, 10, 2) == Some(DigitsValue(mi)) && IsoField(t, 13, 2) == Some(DigitsValue(ss))
            && IsoField(t, 16, 3) == Some(DigitsValue(ms))
  {
    var t := IsoTailOf(mo, dd, hh, mi, ss, ms);
    Field2At(t, 10, mi);
    Field2At(t, 13, ss);
    Field3At(t, 16, ms);
  }

  /** The tail reader undoes `IsoTailOf`. */
  lemma ParseIsoTailOfFields(mo: string, dd: string, hh: string, mi: string, ss: string, ms: string)
    requires |mo| == 2 && |dd| == 2 && |hh| == 2 && |mi| == 2 && |ss| == 2 && |ms| == 3
    requires AllDigits(mo) && AllDigits(dd) && AllDigits(hh) && AllDigits(mi) && AllDigits(ss) && AllDigits(ms)
    ensures ParseIsoTail(IsoTailOf(mo, dd, hh, mi, ss, ms))
            == Some((DigitsValue(mo) - 1, DigitsValue(dd), DigitsValue(hh), DigitsValue(mi), DigitsValue(ss), DigitsValue(ms)))
  {
    var t := IsoTailOf(mo, dd, hh, mi, ss, ms);
    IsoTailSeparators(mo, dd, hh, mi, ss, ms);
    DateFieldsOf(mo, dd, hh, mi, ss, ms);
    TimeFieldsOf(mo, dd, hh, mi, ss, ms);
    ParseIsoTailFields(t, DigitsValue(mo), DigitsValue(dd), DigitsValue(hh), DigitsValue(mi), DigitsValue(ss), DigitsValue(ms));
  }

  lemma IsoTailSeparators(mo: string, dd: string, hh: string, mi: string, ss: string, ms: string)
    requires |mo| == 2 && |dd| == 2 && |hh| == 2 && |mi| == 2 && |ss| == 2 && |ms| == 3
    ensures var t := IsoTailOf(mo, dd, hh, mi, ss, ms);
            t[0] == '-' && t[3] == '-' && t[6] == 'T' && t[9] == ':' && t[12] == ':'
            && t[15] == '.' && t[19] == 'Z'
  {
  }

  lemma ParseIsoTailOf(d: Date)
    ensures ParseIsoTail(IsoTail(d)) == Some((d.month, d.day, d.hours, d.minutes, d.seconds, d.ms))
  {
    var mo, dd, hh := Pad2(d.month + 1), Pad2(d.day), Pad2(d.hours);
    var mi, ss, ms := Pad2(d.minutes), Pad2(d.seconds), Pad3(d.ms);
    assert IsoTail(d) == IsoTailOf(mo, dd, hh, mi, ss, ms);
    assert DigitsValue(mo) - 1 == d.month && DigitsValue(dd) == d.day && DigitsValue(hh) == d.hours;
    assert DigitsValue(mi) == d.minutes && DigitsValue(ss) == d.seconds && DigitsValue(ms) == d.ms;
    ParseIsoTailOfFields(mo, dd, hh, mi, ss, ms);
  }

  /** Reading the ISO form back gives the date: `toISOString` loses nothing. */
  lemma IsoRoundTrip(d: Date)
    ensures ParseIso(ToIsoString(d)) == Some(d)
  {
    var y, t := IsoYear(d.year), IsoTail(d);
    var s := y + t;
    assert s[..|s| - 20] == y;
    assert s[|s| - 20..] == t;
    ParseIsoYearOf(d.year);
    ParseIsoTailOf(d);
  }

  /** Two dates with the same ISO form are the same date. */
  lemma IsoInjective(a: Date, b: Date)
    requires ToIsoString(a) == ToIsoString(b)
    ensures a == b
  {
    IsoRoundTrip(a);
    IsoRoundTrip(b);
  }
}
