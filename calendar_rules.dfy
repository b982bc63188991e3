/** The calendar rules the reservation engine consults: weekday and weekend,
    the holiday calendar, `YYYY-MM-DD` date rendering, and conversion between
    that rendering and the iCalendar UTC DATE-TIME form `YYYYMMDDThhmmssZ`
    (section 3.3.5 of RFC 5545).

    A date is a day number: 0 is 1970-01-01, the first day a JavaScript `Date`
    counts from. Day numbers become Gregorian civil dates by walking through
    the years and then the months, and back by adding up their lengths. */
module CalendarRules {
  import opened Strings
  import opened Decimal

  type Day = nat

  /** 0 = Sunday, ..., 6 = Saturday; 1970-01-01 was a Thursday. */
  function Weekday(d: Day): (w: nat)
    ensures w < 7
  {
    (d + 4) % 7
  }

  predicate IsWeekend(d: Day)
  {
    Weekday(d) == 0 || Weekday(d) == 6
  }

  /** How many weekend days run from `d` on: 2 from a Saturday, 1 from a
      Sunday, 0 from a weekday. */
  function WeekendRun(d: Day): (k: nat)
    ensures k <= 2
  {
    if !IsWeekend(d) then 0 else if !IsWeekend(d + 1) then 1 else 2
  }

  /** The day after a Saturday is a Sunday; otherwise the weekday advances by one. */
  lemma WeekdayNext(d: Day)
    ensures Weekday(d + 1) == if Weekday(d) == 6 then 0 else Weekday(d) + 1
  {
  }

  /** A weekend is two days long: stepping past a weekend day shortens the run. */
  lemma WeekendShrinks(d: Day)
    requires IsWeekend(d)
    ensures WeekendRun(d + 1) < WeekendRun(d)
  {
    WeekdayNext(d);
    WeekdayNext(d + 1);
  }

  /** The holiday calendar is a finite set of days. */
  predicate IsHoliday(holidays: set<Day>, d: Day)
  {
    d in holidays
  }

  datatype CivilDate = CivilDate(year: int, month: int, day: int)

  /** Gregorian leap years: every fourth year, except centuries not divisible by 400. */
  predicate IsLeapYear(y: int)
  {
    y % 4 == 0 && (y % 100 != 0 || y % 400 == 0)
  }

  function DaysInYear(y: int): nat
  {
    if IsLeapYear(y) then 366 else 365
  }

  function DaysInMonth(y: int, m: int): nat
  {
    if m == 2 then (if IsLeapYear(y) then 29 else 28)
    else if m == 4 || m == 6 || m == 9 || m == 11 then 30
    else 31
  }

  /** The days of year `y` before the first of month `m` (1 to 13, where 13
      stands for the end of the year). */
  function DaysBeforeMonth(y: int, m: int): nat
    requires 1 <= m <= 13
  {
    var before := if m == 1 then 0 else if m == 2 then 31 else if m == 3 then 59 else if m == 4 then 90
                  else if m == 5 then 120 else if m == 6 then 151 else if m == 7 then 181 else if m == 8 then 212
                  else if m == 9 then 243 else if m == 10 then 273 else if m == 11 then 304 else if m == 12 then 334
                  else 365;
    before + if m > 2 && IsLeapYear(y) then 1 else 0
  }

  /** Each month starts where the previous one ends, and December ends the year. */
  lemma MonthsFillYear(y: int, m: int)
    requires 1 <= m <= 12
    ensures DaysBeforeMonth(y, m) + DaysInMonth(y, m) == DaysBeforeMonth(y, m + 1)
    ensures DaysBeforeMonth(y, 13) == DaysInYear(y)
  {
  }

  /** The date `rem` days after the first of month `m` of year `y`. */
  function MonthFrom(y: int, m: int, rem: nat): (c: CivilDate)
    requires 1 <= m <= 12 && DaysBeforeMonth(y, m) + rem < DaysInYear(y)
    ensures c.year == y && m <= c.month <= 12 && 1 <= c.day <= DaysInMonth(y, c.month)
    decreases 12 - m
  {
    if rem < DaysInMonth(y, m) then CivilDate(y, m, rem + 1)
    else
      MonthsFillYear(y, m);
      MonthFrom(y, m + 1, rem - DaysInMonth(y, m))
  }

  /** The date `rem` days after the first of January of year `y`. */
  function YearFrom(y: int, rem: nat): (c: CivilDate)
    ensures y <= c.year && 1 <= c.month <= 12 && 1 <= c.day <= DaysInMonth(c.year, c.month)
    decreases rem
  {
    if rem < DaysInYear(y) then MonthFrom(y, 1, rem)
    else YearFrom(y + 1, rem - DaysInYear(y))
  }

  /** The civil date of a day number, counting from 1970-01-01. */
  function CivilFromDays(d: Day): (c: CivilDate)
    ensures 1970 <= c.year && 1 <= c.month <= 12 && 1 <= c.day <= 31
  {
    YearFrom(1970, d)
  }

  /** Leap years among the years 1 to `y - 1`. */
  function LeapYearsBefore(y: int): int
  {
    (y - 1) / 4 - (y - 1) / 100 + (y - 1) / 400
  }

  /** The days from 1970-01-01 to the first of January of year `y` (none before 1970). */
  function DaysBeforeYear(y: int): int
  {
    if y <= 1970 then 0 else 365 * (y - 1970) + LeapYearsBefore(y) - LeapYearsBefore(1970)
  }

  /** From year `y - 1` to year `y`, each quotient of the leap-year count
      grows by one exactly when its divisor divides `y`. */
  lemma QuotientsStep(y: int)
    ensures y / 4 - (y - 1) / 4 == if y % 4 == 0 then 1 else 0
    ensures y / 100 - (y - 1) / 100 == if y % 100 == 0 then 1 else 0
    ensures y / 400 - (y - 1) / 400 == if y % 400 == 0 then 1 else 0
  {
  }

  /** A multiple of 400 is a multiple of 100, and one of 100 a multiple of 4. */
  lemma CenturyDivisibility(y: int)
    ensures y % 400 == 0 ==> y % 100 == 0
    ensures y % 100 == 0 ==> y % 4 == 0
  {
    if y % 400 == 0 {
      var q := y / 400;
      assert y == 400 * q;
      assert y - 100 * (4 * q) == 0;
    }
    if y % 100 == 0 {
      var q := y / 100;
      assert y == 100 * q;
      assert y - 4 * (25 * q) == 0;
    }
  }

  /** Year `y` adds one to the count of leap years exactly when it is a leap year. */
  lemma LeapYearStep(y: int)
    ensures LeapYearsBefore(y + 1) == LeapYearsBefore(y) + if IsLeapYear(y) then 1 else 0
  {
    QuotientsStep(y);
    CenturyDivisibility(y);
  }

  /** Consecutive years follow each other without gap or overlap. */
  lemma DaysBeforeNextYear(y: int)
    requires 1970 <= y
    ensures DaysBeforeYear(y + 1) == DaysBeforeYear(y) + DaysInYear(y)
  {
    LeapYearStep(y);
  }

  /** The day number of a civil date; -1 when the month is out of range. */
  function DaysFromCivil(c: CivilDate): int
  {
    if 1 <= c.month <= 12 then DaysBeforeYear(c.year) + DaysBeforeMonth(c.year, c.month) + c.day - 1
    else -1
  }

  lemma {:induction false} MonthFromInverse(y: int, m: int, rem: nat)
    requires 1 <= m <= 12 && DaysBeforeMonth(y, m) + rem < DaysInYear(y)
    ensures var c := MonthFrom(y, m, rem);
            DaysBeforeMonth(y, c.month) + c.day - 1 == DaysBeforeMonth(y, m) + rem
    decreases 12 - m
  {
    if rem >= DaysInMonth(y, m) {
      MonthsFillYear(y, m);
      MonthFromInverse(y, m + 1, rem - DaysInMonth(y, m));
      assert MonthFrom(y, m, rem) == MonthFrom(y, m + 1, rem - DaysInMonth(y, m));
    }
  }

  lemma {:induction false} YearFromInverse(y: int, rem: nat)
    requires 1970 <= y
    ensures DaysFromCivil(YearFrom(y, rem)) == DaysBeforeYear(y) + rem
    decreases rem
  {
    if rem < DaysInYear(y) {
      MonthFromInverse(y, 1, rem);
    } else {
      YearFromInverse(y + 1, rem - DaysInYear(y));
      DaysBeforeNextYear(y);
    }
  }

  /** The days of the years `z` to `y - 1`. */
  function YearsLength(z: int, y: int): nat
    decreases y - z
  {
    if y <= z then 0 else DaysInYear(z) + YearsLength(z + 1, y)
  }

  /** The years from `z` to `y` span the difference of their day numbers. */
  lemma {:induction false} YearsLengthSpan(z: int, y: int)
    requires 1970 <= z <= y
    ensures YearsLength(z, y) == DaysBeforeYear(y) - DaysBeforeYear(z)
    decreases y - z
  {
    if z < y {
      YearsLengthSpan(z + 1, y);
      DaysBeforeNextYear(z);
    }
  }

  /** Walking from the first of January of year `z` skips whole years up to year `y`. */
  lemma {:induction false} YearFromSkipsYears(z: int, y: int, rem: nat)
    requires z <= y && rem < DaysInYear(y)
    ensures YearFrom(z, YearsLength(z, y) + rem) == MonthFrom(y, 1, rem)
    decreases y - z
  {
    if z < y {
      YearFromSkipsYears(z + 1, y, rem);
    }
  }

  /** Day number -> civil date -> day number is the identity, so the civil
      date determines the day. */
  lemma DaysFromCivilInverse(d: Day)
    ensures DaysFromCivil(CivilFromDays(d)) == d
  {
    YearFromInverse(1970, d);
  }

  /** A date of the proleptic Gregorian calendar, from 1970 on. */
  predicate ValidCivil(c: CivilDate)
  {
    1970 <= c.year && 1 <= c.month <= 12 && 1 <= c.day <= DaysInMonth(c.year, c.month)
  }

  /** A month ends no later than its year. */
  lemma MonthsWithinYear(y: int, m: int)
    requires 1 <= m <= 12
    ensures DaysBeforeMonth(y, m) + DaysInMonth(y, m) <= DaysInYear(y)
  {
  }

  /** Walking from the first of month `k` skips whole months up to month `m`. */
  lemma {:induction false} MonthFromSkipsMonths(y: int, k: int, m: int, day: int)
    requires 1 <= k <= m <= 12 && 1 <= day <= DaysInMonth(y, m)
    ensures DaysBeforeMonth(y, k) <= DaysBeforeMonth(y, m)
    ensures DaysBeforeMonth(y, k) + (DaysBeforeMonth(y, m) - DaysBeforeMonth(y, k) + day - 1) < DaysInYear(y)
    ensures MonthFrom(y, k, DaysBeforeMonth(y, m) - DaysBeforeMonth(y, k) + day - 1) == CivilDate(y, m, day)
    decreases m - k
  {
    MonthsWithinYear(y, m);
    MonthsFillYear(y, k);
    if k < m {
      MonthFromSkipsMonths(y, k + 1, m, day);
    }
  }

  /** Civil date -> day number -> civil date is the identity on valid dates,
      so every such date is the rendering of exactly one day. */
  lemma CivilFromDaysInverse(c: CivilDate)
    requires ValidCivil(c)
    ensures DaysFromCivil(c) >= 0 && CivilFromDays(DaysFromCivil(c)) == c
  {
    var rem := DaysBeforeMonth(c.year, c.month) + c.day - 1;
    assert DaysBeforeMonth(c.year, 1) == 0;
    MonthFromSkipsMonths(c.year, 1, c.month, c.day);
    assert MonthFrom(c.year, 1, rem) == c;
    assert rem < DaysInYear(c.year);
    YearFromSkipsYears(1970, c.year, rem);
    YearsLengthSpan(1970, c.year);
    assert DaysBeforeYear(1970) == 0;
    assert DaysFromCivil(c) == DaysBeforeYear(c.year) + rem;
  }

  /** `formatDate`: the `YYYY-MM-DD` rendering of a day, the year padded to at
      least four digits, month and day to two. */
  function FormatDate(d: Day): string
  {
    var c := CivilFromDays(d);
    Padded(c.year, 4) + "-" + Padded(c.month, 2) + "-" + Padded(c.day, 2)
  }

  /** The digits of a date with the dashes removed: `YYYYMMDD`. */
  function DateKey(d: Day): string
  {
    RemoveChar(FormatDate(d), '-')
  }

  /** Reads a dashless `YYYYMMDD` key back into a day number: the last four
      digits are month and day, everything before them the year. */
  function ParseDateKey(key: string): int
  {
    if |key| < 4 then -1
    else
      DaysFromCivil(CivilDate(Value(key[..|key| - 4]),
                              Value(key[|key| - 4..|key| - 2]),
                              Value(key[|key| - 2..])))
  }

  lemma DateKeyDigits(d: Day)
    ensures var c := CivilFromDays(d);
            DateKey(d) == Padded(c.year, 4) + Padded(c.month, 2) + Padded(c.day, 2)
    ensures AllDigits(DateKey(d)) && 8 <= |DateKey(d)|
    ensures CivilFromDays(d).year < 10000 ==> |DateKey(d)| == 8
  {
    var c := CivilFromDays(d);
    PaddedAreDigits(c.year, 4);
    PaddedAreDigits(c.month, 2);
    PaddedAreDigits(c.day, 2);
    RemoveSeparators(Padded(c.year, 4), Padded(c.month, 2), Padded(c.day, 2), '-');
  }

  /** A key made of a year, a two-digit month and a two-digit day parses as that date. */
  lemma ParseJoinedKey(y: string, m: string, dd: string)
    requires |m| == 2 && |dd| == 2
    ensures ParseDateKey(y + m + dd) == DaysFromCivil(CivilDate(Value(y), Value(m), Value(dd)))
  {
    var key := y + m + dd;
    assert key[..|key| - 4] == y;
    assert key[|key| - 4..|key| - 2] == m;
    assert key[|key| - 2..] == dd;
  }

  /** The key of a day parses back to that day. */
  lemma ParseDateKeyInverse(d: Day)
    ensures ParseDateKey(DateKey(d)) == d
  {
    var c := CivilFromDays(d);
    DateKeyDigits(d);
    ParseJoinedKey(Padded(c.year, 4), Padded(c.month, 2), Padded(c.day, 2));
    ValueOfPadded(c.year, 4);
    ValueOfPadded(c.month, 2);
    ValueOfPadded(c.day, 2);
    DaysFromCivilInverse(d);
  }

  /** Different days have different keys. */
  lemma DateKeyInjective(d: Day, e: Day)
    requires DateKey(d) == DateKey(e)
    ensures d == e
  {
    ParseDateKeyInverse(d);
    ParseDateKeyInverse(e);
  }

  /** `convertToICalendarFormat(date, time)`: `YYYYMMDD` + `T` + `hhmmss` + `Z`. */
  function ToICalendar(date: string, time: string): string
  {
    RemoveChar(date, '-') + "T" + RemoveChar(time, ':') + "Z"
  }

  /** `convertFromICalendarFormat`: the digits before the `T`, with dashes put
      back before the month and the day. */
  function FromICalendar(stamp: string): string
  {
    var key := TakeUntil(stamp, 'T');
    if |key| < 4 then key
    else key[..|key| - 4] + "-" + key[|key| - 4..|key| - 2] + "-" + key[|key| - 2..]
  }

  /** The stamp of a day's rendering starts with that day's key. */
  lemma StampStartsWithKey(d: Day, time: string)
    ensures StartsWith(ToICalendar(FormatDate(d), time), DateKey(d))
  {
    var stamp := ToICalendar(FormatDate(d), time);
    assert stamp[..|DateKey(d)|] == DateKey(d);
  }

  /** Converting back a stamp whose date part is a year, a two-digit month
      and a two-digit day puts the dashes back between them. */
  lemma FromICalendarJoined(y: string, m: string, dd: string, rest: string)
    requires |m| == 2 && |dd| == 2 && AllDigits(y + m + dd)
    ensures FromICalendar(y + m + dd + ['T'] + rest) == y + "-" + m + "-" + dd
  {
    var key := y + m + dd;
    assert 'T' !in key by {
      assert forall i :: 0 <= i < |key| ==> IsDigit(key[i]);
    }
    TakeUntilSeparator(key, 'T', rest);
    assert key[..|key| - 4] == y;
    assert key[|key| - 4..|key| - 2] == m;
    assert key[|key| - 2..] == dd;
  }

  /** Round trip: converting a rendered date to a stamp and back recovers the
      rendering, whatever time of day the stamp was given. */
  lemma StampRoundTrip(d: Day, time: string)
    ensures FromICalendar(ToICalendar(FormatDate(d), time)) == FormatDate(d)
  {
    var c := CivilFromDays(d);
    var y, m, dd := Padded(c.year, 4), Padded(c.month, 2), Padded(c.day, 2);
    var rest := RemoveChar(time, ':') + "Z";
    DateKeyDigits(d);
    assert ToICalendar(FormatDate(d), time) == y + m + dd + ['T'] + rest;
    FromICalendarJoined(y, m, dd, rest);
  }

  /** The day a stored stamp denotes: its date digits parsed back. */
  function DayOfStamp(stamp: string): int
  {
    ParseDateKey(TakeUntil(stamp, 'T'))
  }

  /** A stamp made from a day denotes that day again. */
  lemma DayOfStampInverse(d: Day, time: string)
    requires 'T' !in time
    ensures DayOfStamp(ToICalendar(FormatDate(d), time)) == d
  {
    DateKeyDigits(d);
    var key := DateKey(d);
    assert 'T' !in key;
    assert ToICalendar(FormatDate(d), time) == key + ['T'] + (RemoveChar(time, ':') + "Z");
    TakeUntilSeparator(key, 'T', RemoveChar(time, ':') + "Z");
    ParseDateKeyInverse(d);
  }

  /** 2024-07-04, the one holiday the scheduler's tests rely on. */
  const IndependenceDay2024: Day := 19908

  /** The holiday list of utils.js, which this model does not include, is
      replaced by the one date the scheduler's tests require to be a holiday. */
  const DefaultHolidays: set<Day> := {IndependenceDay2024}
}
