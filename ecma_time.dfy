/**
  Time values as the host `Date` object keeps them: an integral number of
  milliseconds since 1970-01-01T00:00:00Z, with the calendar operations of
  section 21.4.1 of ECMA-262 (Day, DayFromYear, YearFromTime, MonthFromTime,
  DateFromTime, HourFromTime, ..., MakeTime, MakeDay, MakeDate) written out on
  integers.  The standard's `floor` and `modulo` are mathematical; Dafny's `/`
  and `%` by a positive divisor are the same operations.
*/
module EcmaTime {

  const MsPerSecond: int := 1000
  const MsPerMinute: int := 60000
  const MsPerHour: int := 3600000
  const MsPerDay: int := 86400000

  /** Day(t): the day number of a time value. */
  function Day(t: int): int {
    t / 86400000
  }

  /** DaysInYear(y) of the proleptic Gregorian calendar. */
  function DaysInYear(y: int): int {
    if y % 4 != 0 then 365
    else if y % 100 != 0 then 366
    else if y % 400 != 0 then 365
    else 366
  }

  /** DayFromYear(y): the day number of January 1 of year `y`. */
  function DayFromYear(y: int): int {
    365 * (y - 1970) + (y - 1969) / 4 - (y - 1901) / 100 + (y - 1601) / 400
  }

  /** Consecutive years are `DaysInYear` days apart. */
  lemma DayFromYearStep(y: int)
    ensures DayFromYear(y + 1) == DayFromYear(y) + DaysInYear(y)
  {
    FloorStep(y - 1969, 4);
    ShiftMod(y - 1968, 4, 492);
    FloorStep(y - 1901, 100);
    ShiftMod(y - 1900, 100, 19);
    FloorStep(y - 1601, 400);
    ShiftMod(y - 1600, 400, 4);
  }

  /** One more in the dividend raises the quotient exactly at a multiple of the divisor. */
  lemma FloorStep(a: int, k: int)
    requires 0 < k
    ensures (a + 1) / k - a / k == if (a + 1) % k == 0 then 1 else 0
  {
    if a % k == k - 1 {
      DivModUnique(a + 1, k, a / k + 1, 0);
    } else {
      DivModUnique(a + 1, k, a / k, a % k + 1);
    }
  }

  /** Adding multiples of the divisor leaves the remainder alone. */
  lemma ShiftMod(a: int, k: int, m: int)
    requires 0 < k
    ensures (a + k * m) % k == a % k
  {
    DivModUnique(a + k * m, k, a / k + m, a % k);
  }

  /** DayFromYear stays within two days of the mean Gregorian year length
      (146097 days per 400 years) counted from 1970. */
  lemma DayFromYearEstimate(y: int)
    ensures -506 <= 400 * DayFromYear(y) - 146097 * (y - 1970) <= 589
  {
  }

  /** Later years start on later days. */
  lemma DayFromYearMonotone(a: int, b: int)
    requires a < b
    ensures DayFromYear(a) < DayFromYear(b)
  {
    DayFromYearEstimate(a);
    DayFromYearEstimate(b);
  }

  /** The year that contains day number `n`: the largest `y` whose first day is
      not after `n` (YearFromTime of section 21.4.1 of ECMA-262, on day numbers).
      A first guess from the mean year length is off by at most one year. */
  function YearFromDay(n: int): (y: int)
    ensures DayFromYear(y) <= n < DayFromYear(y + 1)
  {
    var y0 := 1970 + (400 * n) / 146097;
    DayFromYearEstimate(y0 - 1);
    DayFromYearEstimate(y0 + 2);
    if DayFromYear(y0 + 1) <= n then y0 + 1
    else if DayFromYear(y0) <= n then y0
    else y0 - 1
  }

  /** Any year whose span holds day `n` is the year YearFromDay finds. */
  lemma YearFromDayUnique(y: int, n: int)
    requires DayFromYear(y) <= n < DayFromYear(y + 1)
    ensures YearFromDay(n) == y
  {
    var r := YearFromDay(n);
    if r + 1 < y {
      DayFromYearMonotone(r + 1, y);
    }
    if y + 1 < r {
      DayFromYearMonotone(y + 1, r);
    }
  }

  function YearFromTime(t: int): int {
    YearFromDay(Day(t))
  }

  /** 1 in a leap year, 0 otherwise (InLeapYear of ECMA-262). */
  function LeapOf(y: int): int {
    if DaysInYear(y) == 366 then 1 else 0
  }

  function InLeapYear(t: int): int {
    LeapOf(YearFromTime(t))
  }

  function DayWithinYear(t: int): int {
    Day(t) - DayFromYear(YearFromTime(t))
  }

  /** The day within the year on which 0-based month `m` starts; `m == 12` gives
      the length of the year. */
  function MonthStart(m: int, leap: int): int
    requires 0 <= m <= 12
  {
    [0, 31, 59, 90, 120, 151, 181, 212, 243, 273, 304, 334, 365][m] + (if m >= 2 then leap else 0)
  }

  /** The month table of MonthFromTime in ECMA-262: the 0-based month whose span
      holds day `d` of the year. */
  function MonthFromDayWithinYear(d: int, leap: int): (m: int)
    requires 0 <= leap <= 1 && 0 <= d < 365 + leap
    ensures 0 <= m < 12 && MonthStart(m, leap) <= d < MonthStart(m + 1, leap)
  {
    if d < 31 then 0
    else if d < 59 + leap then 1
    else if d < 90 + leap then 2
    else if d < 120 + leap then 3
    else if d < 151 + leap then 4
    else if d < 181 + leap then 5
    else if d < 212 + leap then 6
    else if d < 243 + leap then 7
    else if d < 273 + leap then 8
    else if d < 304 + leap then 9
    else if d < 334 + leap then 10
    else 11
  }

  /** The day within the year is inside the year. */
  lemma DayWithinYearRange(t: int)
    ensures 0 <= DayWithinYear(t) < 365 + InLeapYear(t)
  {
    DayFromYearStep(YearFromTime(t));
  }

  /** MonthFromTime(t): 0 for January ... 11 for December. */
  function MonthFromTime(t: int): (m: int)
    ensures 0 <= m < 12
  {
    DayWithinYearRange(t);
    MonthFromDayWithinYear(DayWithinYear(t), InLeapYear(t))
  }

  /** DateFromTime(t): the day of the month, from 1. */
  function DateFromTime(t: int): int {
    DayWithinYear(t) - MonthStart(MonthFromTime(t), InLeapYear(t)) + 1
  }

  function HourFromTime(t: int): int {
    (t / 3600000) % 24
  }

  function MinFromTime(t: int): int {
    (t / 60000) % 60
  }

  function SecFromTime(t: int): int {
    (t / 1000) % 60
  }

  /** MakeTime(hour, min, sec, ms) on integral arguments. */
  function MakeTime(hour: int, min: int, sec: int, ms: int): int {
    hour * MsPerHour + min * MsPerMinute + sec * MsPerSecond + ms
  }

  /** MakeDay(year, month, date) on integral arguments: a month outside 0..11
      carries into the year, a date past the month's end runs into the next. */
  function MakeDay(year: int, month: int, date: int): int {
    var ym := year + month / 12;
    var mn := month % 12;
    DayFromYear(ym) + MonthStart(mn, LeapOf(ym)) + date - 1
  }

  function MakeDate(day: int, time: int): int {
    day * MsPerDay + time
  }

  /** Calendar fields of an instant as the `getUTC...` accessors report them,
      except that `month` counts from 1. */
  datatype Fields = Fields(year: int, month: int, day: int, hour: int, minute: int, second: int)

  function DaysInMonth(year: int, month: int): int
    requires 1 <= month <= 12
  {
    MonthStart(month, LeapOf(year)) - MonthStart(month - 1, LeapOf(year))
  }

  /** Every month has 28 to 31 days. */
  lemma DaysInMonthRange(year: int, month: int)
    requires 1 <= month <= 12
    ensures 28 <= DaysInMonth(year, month) <= 31
  {
  }

  /** Fields that name an existing second of the calendar. */
  predicate ValidFields(f: Fields) {
    && 1 <= f.month <= 12
    && 1 <= f.day <= DaysInMonth(f.year, f.month)
    && 0 <= f.hour < 24
    && 0 <= f.minute < 60
    && 0 <= f.second < 60
  }

  /** What `getUTCFullYear()`, `getUTCMonth() + 1`, `getUTCDate()`,
      `getUTCHours()`, `getUTCMinutes()` and `getUTCSeconds()` return. */
  function UtcFields(t: int): Fields {
    Fields(YearFromTime(t), MonthFromTime(t) + 1, DateFromTime(t), HourFromTime(t), MinFromTime(t), SecFromTime(t))
  }

  /** The time value of UTC calendar fields:
      `MakeDate(MakeDay(y, mo - 1, d), MakeTime(h, mi, s, 0))`. */
  function TimeFromFields(f: Fields): int {
    MakeDate(MakeDay(f.year, f.month - 1, f.day), MakeTime(f.hour, f.minute, f.second, 0))
  }

  /** Division with remainder has exactly one answer. */
  lemma DivModUnique(a: int, b: int, q: int, r: int)
    requires 0 < b && a == q * b + r && 0 <= r < b
    ensures a / b == q && a % b == r
  {
    var q', r' := a / b, a % b;
    if q' < q {
      assert (q - q') * b >= b by { MulAtLeast(q - q', b); }
    } else if q < q' {
      assert (q' - q) * b >= b by { MulAtLeast(q' - q, b); }
    }
  }

  lemma MulAtLeast(k: int, b: int)
    requires 1 <= k && 0 < b
    ensures k * b >= b
  {
  }

  /** The clock fields of an instant given as a day number and a time of day. */
  lemma ClockOfTime(t: int, d: int, h: int, mi: int, s: int)
    requires 0 <= h < 24 && 0 <= mi < 60 && 0 <= s < 60
    requires t == d * 86400000 + h * 3600000 + mi * 60000 + s * 1000
    ensures Day(t) == d
    ensures HourFromTime(t) == h && MinFromTime(t) == mi && SecFromTime(t) == s
  {
    DivModUnique(t, 86400000, d, h * 3600000 + mi * 60000 + s * 1000);
    DivModUnique(t, 3600000, 24 * d + h, mi * 60000 + s * 1000);
    DivModUnique(24 * d + h, 24, d, h);
    DivModUnique(t, 60000, 1440 * d + 60 * h + mi, s * 1000);
    DivModUnique(1440 * d + 60 * h + mi, 60, 24 * d + h, mi);
    DivModUnique(t, 1000, 86400 * d + 3600 * h + 60 * mi + s, 0);
    DivModUnique(86400 * d + 3600 * h + 60 * mi + s, 60, 1440 * d + 60 * h + mi, s);
  }

  /** The calendar fields of an instant whose day number is day `dwy` of year `y`. */
  lemma CalendarOfTime(t: int, y: int, m: int, dwy: int)
    requires 0 <= m < 12
    requires MonthStart(m, LeapOf(y)) <= dwy < MonthStart(m + 1, LeapOf(y))
    requires Day(t) == DayFromYear(y) + dwy
    ensures YearFromTime(t) == y && InLeapYear(t) == LeapOf(y) && DayWithinYear(t) == dwy
    ensures MonthFromTime(t) == m
    ensures DateFromTime(t) == dwy - MonthStart(m, LeapOf(y)) + 1
  {
    DayFromYearStep(y);
    YearFromDayUnique(y, Day(t));
    MonthUnique(m, dwy, LeapOf(y));
  }

  /** Building an instant from valid fields and reading its fields back gives
      the same fields. */
  lemma FieldsRoundTrip(f: Fields)
    requires ValidFields(f)
    ensures UtcFields(TimeFromFields(f)) == f
  {
    var leap := LeapOf(f.year);
    var dwy := MonthStart(f.month - 1, leap) + f.day - 1;
    var d := DayFromYear(f.year) + dwy;
    DivModUnique(f.month - 1, 12, 0, f.month - 1);
    assert MakeDay(f.year, f.month - 1, f.day) == d;
    var t := TimeFromFields(f);
    ClockOfTime(t, d, f.hour, f.minute, f.second);
    CalendarOfTime(t, f.year, f.month - 1, dwy);
  }

  /** A month whose span holds day `d` is the month the table finds. */
  lemma MonthUnique(m: int, d: int, leap: int)
    requires 0 <= leap <= 1 && 0 <= m < 12
    requires MonthStart(m, leap) <= d < MonthStart(m + 1, leap)
    ensures MonthFromDayWithinYear(d, leap) == m
  {
  }

  /** A time within a day splits into hours, minutes, seconds and milliseconds. */
  lemma TimeOfDaySplit(tod: int)
    requires 0 <= tod < 86400000
    ensures 0 <= tod / 3600000 < 24 && 0 <= (tod % 3600000) / 60000 < 60 && 0 <= (tod % 60000) / 1000 < 60
    ensures tod == (tod / 3600000) * 3600000 + ((tod % 3600000) / 60000) * 60000 + ((tod % 60000) / 1000) * 1000 + tod % 1000
  {
    var h, r1 := tod / 3600000, tod % 3600000;
    var mi, r2 := r1 / 60000, r1 % 60000;
    DivModUnique(tod, 60000, 60 * h + mi, r2);
    var s, ms := r2 / 1000, r2 % 1000;
    DivModUnique(tod, 1000, 3600 * h + 60 * mi + s, ms);
  }

  /** The clock part of an instant's fields rebuilds its time of day, less the
      milliseconds. */
  lemma ClockFieldsOfTime(t: int)
    ensures 0 <= HourFromTime(t) < 24 && 0 <= MinFromTime(t) < 60 && 0 <= SecFromTime(t) < 60
    ensures t - t % 1000 == Day(t) * 86400000 + HourFromTime(t) * 3600000 + MinFromTime(t) * 60000 + SecFromTime(t) * 1000
  {
    var d := Day(t);
    var tod := t % 86400000;
    TimeOfDaySplit(tod);
    var h, mi, s, ms := tod / 3600000, (tod % 3600000) / 60000, (tod % 60000) / 1000, tod % 1000;
    assert t == d * 86400000 + tod;
    DivModUnique(t, 1000, 86400 * d + 3600 * h + 60 * mi + s, ms);
    DivModUnique(t, 60000, 1440 * d + 60 * h + mi, s * 1000 + ms);
    DivModUnique(t, 3600000, 24 * d + h, mi * 60000 + s * 1000 + ms);
    DivModUnique(24 * d + h, 24, d, h);
    DivModUnique(1440 * d + 60 * h + mi, 60, 24 * d + h, mi);
    DivModUnique(86400 * d + 3600 * h + 60 * mi + s, 60, 1440 * d + 60 * h + mi, s);
  }

  /** Every instant has valid fields, and they rebuild the instant up to its
      milliseconds. */
  lemma TimeRoundTrip(t: int)
    ensures ValidFields(UtcFields(t))
    ensures TimeFromFields(UtcFields(t)) == t - t % 1000
  {
    var f := UtcFields(t);
    ClockFieldsOfTime(t);
    CalendarFieldsValid(t);
    var m := MonthFromTime(t);
    DivModUnique(m, 12, 0, m);
    assert MakeDay(f.year, f.month - 1, f.day) == Day(t);
  }

  /** The calendar part of an instant's fields names an existing day. */
  lemma CalendarFieldsValid(t: int)
    ensures 1 <= DateFromTime(t) <= DaysInMonth(YearFromTime(t), MonthFromTime(t) + 1)
    ensures DayFromYear(YearFromTime(t)) + MonthStart(MonthFromTime(t), InLeapYear(t)) + DateFromTime(t) - 1 == Day(t)
  {
    DayWithinYearRange(t);
    var leap := InLeapYear(t);
    var m := MonthFromTime(t);
    assert MonthStart(m, leap) <= DayWithinYear(t) < MonthStart(m + 1, leap);
  }
}
