/**
  `createDateInPKT(year, month, day, hour, minute, second)`: the instant at which
  the given wall clock reads that time in Pakistan Standard Time (UTC+5).  The
  script formats the fields as `YYYY-MM-DDTHH:MM:SS+05:00` and hands the string
  to the host `Date` parser; this model keeps the string and replaces the parse
  by the arithmetic it performs on such a string: the UTC instant of the same
  fields, less the five-hour offset.
*/
module PktDate {
  import opened Wrappers
  import opened Decimal
  import opened EcmaTime

  /** The fixed offset of Pakistan Standard Time. */
  const PktOffsetMs: int := 5 * MsPerHour

  /** Fields the date-time string format accepts: a real calendar second and a
      year of exactly four digits. */
  predicate ValidWallClock(f: Fields) {
    ValidFields(f) && 1000 <= f.year <= 9999
  }

  /** The timestamp string `createDateInPKT` builds. */
  function PktIsoString(f: Fields): string {
    IntToString(f.year) + "-" + Pad2(f.month) + "-" + Pad2(f.day) + "T"
    + Pad2(f.hour) + ":" + Pad2(f.minute) + ":" + Pad2(f.second) + "+05:00"
  }

  /** Reads `YYYY-MM-DDTHH:MM:SS+05:00` back into its fields; anything else is None. */
  function ReadPktIsoString(s: string): Option<Fields> {
    if && |s| == 25
       && AllDigits(s[0..4]) && s[4] == '-' && AllDigits(s[5..7]) && s[7] == '-'
       && AllDigits(s[8..10]) && s[10] == 'T' && AllDigits(s[11..13]) && s[13] == ':'
       && AllDigits(s[14..16]) && s[16] == ':' && AllDigits(s[17..19]) && s[19..] == "+05:00"
    then Some(Fields(DigitsValue(s[0..4]), DigitsValue(s[5..7]), DigitsValue(s[8..10]),
                     DigitsValue(s[11..13]), DigitsValue(s[14..16]), DigitsValue(s[17..19])))
    else None
  }

  /** Where the pieces of a `YYYY-MM-DDTHH:MM:SS+05:00` string sit. */
  lemma IsoLayout(y: string, mo: string, d: string, h: string, mi: string, se: string)
    requires |y| == 4 && |mo| == 2 && |d| == 2 && |h| == 2 && |mi| == 2 && |se| == 2
    ensures var s := y + "-" + mo + "-" + d + "T" + h + ":" + mi + ":" + se + "+05:00";
            && |s| == 25 && s[0..4] == y && s[4] == '-' && s[5..7] == mo && s[7] == '-'
            && s[8..10] == d && s[10] == 'T' && s[11..13] == h && s[13] == ':'
            && s[14..16] == mi && s[16] == ':' && s[17..19] == se && s[19..] == "+05:00"
  {
    var s1 := y + "-" + mo + "-" + d + "T";
    var s2 := h + ":" + mi + ":" + se + "+05:00";
    assert s1[0..4] == y && s1[5..7] == mo && s1[8..10] == d;
    assert s2[0..2] == h && s2[3..5] == mi && s2[6..8] == se && s2[8..] == "+05:00";
    var s := s1 + s2;
    assert y + "-" + mo + "-" + d + "T" + h + ":" + mi + ":" + se + "+05:00" == s;
    assert s[0..11] == s1 && s[11..] == s2;
  }

  /** A string laid out as `YYYY-MM-DDTHH:MM:SS+05:00` with digits in the
      numeric places reads as those digits' values. */
  lemma ReadIsoLaidOut(s: string)
    requires |s| == 25
    requires AllDigits(s[0..4]) && s[4] == '-' && AllDigits(s[5..7]) && s[7] == '-'
    requires AllDigits(s[8..10]) && s[10] == 'T' && AllDigits(s[11..13]) && s[13] == ':'
    requires AllDigits(s[14..16]) && s[16] == ':' && AllDigits(s[17..19]) && s[19..] == "+05:00"
    ensures ReadPktIsoString(s)
            == Some(Fields(DigitsValue(s[0..4]), DigitsValue(s[5..7]), DigitsValue(s[8..10]),
                           DigitsValue(s[11..13]), DigitsValue(s[14..16]), DigitsValue(s[17..19])))
  {
  }

  /** The string handed to the parser is in the extended format with the +05:00
      offset and carries exactly the given fields. */
  lemma PktIsoStringReadsBack(f: Fields)
    requires ValidWallClock(f)
    ensures |PktIsoString(f)| == 25
    ensures ReadPktIsoString(PktIsoString(f)) == Some(f)
  {
    FourDigits(f.year);
    DaysInMonthRange(f.year, f.month);
    PadTwoDigits(f.month);
    PadTwoDigits(f.day);
    PadTwoDigits(f.hour);
    PadTwoDigits(f.minute);
    PadTwoDigits(f.second);
    var s := PktIsoString(f);
    IsoLayout(IntToString(f.year), Pad2(f.month), Pad2(f.day), Pad2(f.hour), Pad2(f.minute), Pad2(f.second));
    ReadIsoLaidOut(s);
    assert DigitsValue(s[0..4]) == f.year;
    assert DigitsValue(s[5..7]) == f.month;
    assert DigitsValue(s[8..10]) == f.day;
    assert DigitsValue(s[11..13]) == f.hour;
    assert DigitsValue(s[14..16]) == f.minute;
    assert DigitsValue(s[17..19]) == f.second;
  }

  /** The instant `createDateInPKT` returns. */
  function CreateDateInPKT(f: Fields): int
    requires ValidWallClock(f)
  {
    TimeFromFields(f) - PktOffsetMs
  }

  /** The same clock time on the calendar day before. */
  function DayBefore(f: Fields): Fields
    requires 1 <= f.month <= 12
  {
    if f.day > 1 then f.(day := f.day - 1)
    else if f.month > 1 then f.(month := f.month - 1, day := DaysInMonth(f.year, f.month - 1))
    else f.(year := f.year - 1, month := 12, day := 31)
  }

  /** The UTC wall clock five hours behind the given PKT wall clock: the hour
      goes back by five, borrowing a day (and a month, and a year) before 05:00. */
  function PktToUtcWallClock(f: Fields): Fields
    requires ValidFields(f)
  {
    if f.hour >= 5 then f.(hour := f.hour - 5) else DayBefore(f).(hour := f.hour + 19)
  }

  /** The day number of valid fields' date. */
  function DayNumber(f: Fields): int {
    MakeDay(f.year, f.month - 1, f.day)
  }

  /** The last day of the previous month is one day number before the 1st. */
  lemma PreviousMonthEnd(f: Fields)
    requires ValidFields(f) && f.day == 1 && 2 <= f.month
    ensures ValidFields(DayBefore(f)) && DayNumber(DayBefore(f)) == DayNumber(f) - 1
  {
    DaysInMonthRange(f.year, f.month - 1);
    DivModUnique(f.month - 1, 12, 0, f.month - 1);
    DivModUnique(f.month - 2, 12, 0, f.month - 2);
  }

  /** December 31 of the previous year is one day number before January 1. */
  lemma PreviousYearEnd(f: Fields)
    requires ValidFields(f) && f.day == 1 && f.month == 1
    ensures ValidFields(DayBefore(f)) && DayNumber(DayBefore(f)) == DayNumber(f) - 1
  {
    DivModUnique(11, 12, 0, 11);
    DivModUnique(0, 12, 0, 0);
    DayFromYearStep(f.year - 1);
  }

  /** The day before is a valid day exactly one day number earlier. */
  lemma DayBeforeNumber(f: Fields)
    requires ValidFields(f)
    ensures ValidFields(DayBefore(f)) && DayNumber(DayBefore(f)) == DayNumber(f) - 1
  {
    if f.day > 1 {
      DivModUnique(f.month - 1, 12, 0, f.month - 1);
    } else if f.month > 1 {
      PreviousMonthEnd(f);
    } else {
      PreviousYearEnd(f);
    }
  }

  /** Before 05:00 PKT the UTC wall clock is on the day before, nineteen hours later. */
  lemma EarlyHourTime(f: Fields)
    requires ValidFields(f) && f.hour < 5
    ensures ValidFields(PktToUtcWallClock(f))
    ensures TimeFromFields(PktToUtcWallClock(f)) == TimeFromFields(f) - PktOffsetMs
  {
    var g := PktToUtcWallClock(f);
    DayBeforeNumber(f);
    assert DayNumber(g) == DayNumber(f) - 1;
    assert TimeFromFields(g) == DayNumber(g) * MsPerDay + MakeTime(g.hour, g.minute, g.second, 0);
    assert TimeFromFields(f) == DayNumber(f) * MsPerDay + MakeTime(f.hour, f.minute, f.second, 0);
  }

  /** From 05:00 PKT on the UTC wall clock is on the same day, five hours earlier. */
  lemma LateHourTime(f: Fields)
    requires ValidFields(f) && 5 <= f.hour
    ensures ValidFields(PktToUtcWallClock(f))
    ensures TimeFromFields(PktToUtcWallClock(f)) == TimeFromFields(f) - PktOffsetMs
  {
    var g := PktToUtcWallClock(f);
    assert DayNumber(g) == DayNumber(f);
    assert TimeFromFields(g) == DayNumber(g) * MsPerDay + MakeTime(g.hour, g.minute, g.second, 0);
    assert TimeFromFields(f) == DayNumber(f) * MsPerDay + MakeTime(f.hour, f.minute, f.second, 0);
  }

  /** The UTC wall clock five hours behind names the instant five hours earlier. */
  lemma PktToUtcTime(f: Fields)
    requires ValidFields(f)
    ensures ValidFields(PktToUtcWallClock(f))
    ensures TimeFromFields(PktToUtcWallClock(f)) == TimeFromFields(f) - PktOffsetMs
  {
    if f.hour < 5 {
      EarlyHourTime(f);
    } else {
      LateHourTime(f);
    }
  }

  /** `createDateInPKT` gives the UTC instant five hours before the given wall
      clock: its UTC fields are the PKT fields moved back five hours. */
  lemma CreateDateInPKTFields(f: Fields)
    requires ValidWallClock(f)
    ensures UtcFields(CreateDateInPKT(f)) == PktToUtcWallClock(f)
    ensures TimeFromFields(PktToUtcWallClock(f)) == CreateDateInPKT(f)
  {
    PktToUtcTime(f);
    FieldsRoundTrip(PktToUtcWallClock(f));
  }
}
