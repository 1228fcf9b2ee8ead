/**
  Calendar arithmetic of the catalogue utilities: the Gregorian leap-year rule,
  the cumulative day-of-year tables, and the day count that `decimal_time` and
  `decimal_year` derive from a date. Also the range checks Python's
  `datetime.date` and `datetime.time` constructors apply to the values the
  ISF reader decodes.
 */
module Calendar {
  import opened Base

  /** Days before the first of each month in a common year (`MARKER_NORMAL`). */
  const MarkerNormal: seq<int> := [0, 31, 59, 90, 120, 151, 181, 212, 243, 273, 304, 334]

  /** Days before the first of each month in a leap year (`MARKER_LEAP`). */
  const MarkerLeap: seq<int> := [0, 31, 60, 91, 121, 152, 182, 213, 244, 274, 305, 335]

  /** `leap_check`. Python's `%` floors, Dafny's is Euclidean; for the positive divisors used here both give the same remainder. */
  function LeapCheck(year: int): (leap: bool)
    ensures year % 4 != 0 ==> !leap
    ensures year % 4 == 0 && year % 100 != 0 ==> leap
    ensures year % 100 == 0 ==> (leap <==> year % 400 == 0)
  {
    year % 4 == 0 && (year % 100 != 0 || year % 400 == 0)
  }

  /** The number of days in a month of the Gregorian calendar, as `datetime` counts them. */
  function DaysInMonth(year: int, month: int): (n: int)
    requires 1 <= month <= 12
    ensures 28 <= n <= 31
    ensures n == 29 <==> month == 2 && LeapCheck(year)
  {
    if month == 2 then (if LeapCheck(year) then 29 else 28)
    else if month == 4 || month == 6 || month == 9 || month == 11 then 30
    else 31
  }

  /** Days in the months before `month` (1-based), summed month by month: an independent reference for the tables. */
  function DaysBefore(year: int, month: int): int
    requires 1 <= month <= 13
  {
    if month == 1 then 0 else DaysBefore(year, month - 1) + DaysInMonth(year, month - 1)
  }

  /** The table a year uses: the leap table in leap years, the common table otherwise. */
  function Marker(year: int): (m: seq<int>)
    ensures |m| == 12
  {
    if LeapCheck(year) then MarkerLeap else MarkerNormal
  }

  /** The leap rule repeats every 400 years. */
  lemma LeapPeriod(year: int)
    ensures LeapCheck(year + 400) == LeapCheck(year)
  {
    assert (year + 400) % 4 == year % 4;
    assert (year + 400) % 100 == year % 100;
    assert (year + 400) % 400 == year % 400;
  }

  /** Century years are leap years only when divisible by 400. */
  lemma LeapExamples()
    ensures LeapCheck(2000) && LeapCheck(2012) && !LeapCheck(1900) && !LeapCheck(2013)
  {
  }

  /** Each table entry is the number of days in the earlier months of that kind of year. */
  lemma MarkersAreCumulative(year: int, i: int)
    requires 0 <= i < 12
    ensures Marker(year)[i] == DaysBefore(year, i + 1)
  {
    assert DaysBefore(year, 1) == 0;
    assert DaysBefore(year, 2) == 31;
    assert DaysBefore(year, 3) == if LeapCheck(year) then 60 else 59;
    assert DaysBefore(year, 4) == Marker(year)[3];
    assert DaysBefore(year, 5) == Marker(year)[4];
    assert DaysBefore(year, 6) == Marker(year)[5];
    assert DaysBefore(year, 7) == Marker(year)[6];
    assert DaysBefore(year, 8) == Marker(year)[7];
    assert DaysBefore(year, 9) == Marker(year)[8];
    assert DaysBefore(year, 10) == Marker(year)[9];
    assert DaysBefore(year, 11) == Marker(year)[10];
    assert DaysBefore(year, 12) == Marker(year)[11];
  }

  /** A year has 365 days, or 366 in leap years. */
  lemma YearLength(year: int)
    ensures DaysBefore(year, 13) == if LeapCheck(year) then 366 else 365
  {
    MarkersAreCumulative(year, 11);
  }

  /** The leap table agrees with the common one for January and February and is one day ahead after. */
  lemma LeapTableShift(i: int)
    requires 0 <= i < 12
    ensures i < 2 ==> MarkerLeap[i] == MarkerNormal[i]
    ensures i >= 2 ==> MarkerLeap[i] == MarkerNormal[i] + 1
  {
  }

  /** Both tables are strictly increasing. */
  lemma MarkersIncreasing(i: int, j: int)
    requires 0 <= i < j < 12
    ensures MarkerNormal[i] < MarkerNormal[j]
    ensures MarkerLeap[i] < MarkerLeap[j]
  {
  }

  /** `decimal_time`'s day of the year (0-based), from the table of the event's year. */
  function DayCount(year: int, month: int, day: int): (n: int)
    requires 1 <= month <= 12
    ensures n == DaysBefore(year, month) + day - 1
  {
    MarkersAreCumulative(year, month - 1);
    Marker(year)[month - 1] + day - 1
  }

  /** `decimal_year`'s day count: always from the common-year table. */
  function DecimalYearDayCount(month: int, day: int): int
    requires 1 <= month <= 12
  {
    MarkerNormal[month - 1] + day - 1
  }

  /** Valid calendar dates, as `datetime.date` accepts them (years 1 to 9999). */
  predicate ValidDate(year: int, month: int, day: int)
  {
    1 <= year <= 9999 && 1 <= month <= 12 && 1 <= day <= DaysInMonth(year, month)
  }

  /** The day count of a valid date lies in [0, 364], or [0, 365] in leap years. */
  lemma DayCountRange(year: int, month: int, day: int)
    requires ValidDate(year, month, day)
    ensures 0 <= DayCount(year, month, day)
    ensures DayCount(year, month, day) <= if LeapCheck(year) then 365 else 364
  {
    MarkersAreCumulative(year, month - 1);
    YearLength(year);
    DaysBeforeMonotone(year, month + 1, 13);
  }

  /** Later months start later. */
  lemma {:induction false} DaysBeforeMonotone(year: int, m: int, n: int)
    requires 1 <= m <= n <= 13
    ensures DaysBefore(year, m) <= DaysBefore(year, n)
    decreases n - m
  {
    if m < n {
      DaysBeforeMonotone(year, m, n - 1);
    }
  }

  /** Within one year the day count follows calendar order, so distinct valid dates get distinct counts. */
  lemma DayCountOrder(year: int, m1: int, d1: int, m2: int, d2: int)
    requires ValidDate(year, m1, d1) && ValidDate(year, m2, d2)
    requires m1 < m2 || (m1 == m2 && d1 < d2)
    ensures DayCount(year, m1, d1) < DayCount(year, m2, d2)
  {
    MarkersAreCumulative(year, m1 - 1);
    MarkersAreCumulative(year, m2 - 1);
    if m1 < m2 {
      DaysBeforeMonotone(year, m1 + 1, m2);
    }
  }

  /** `decimal_year` ignores leap days: from March of a leap year its count is one less than `decimal_time`'s. */
  lemma DecimalYearIgnoresLeap(year: int, month: int, day: int)
    requires 1 <= month <= 12
    ensures !LeapCheck(year) || month <= 2 ==> DecimalYearDayCount(month, day) == DayCount(year, month, day)
    ensures LeapCheck(year) && month > 2 ==> DecimalYearDayCount(month, day) == DayCount(year, month, day) - 1
  {
    LeapTableShift(month - 1);
  }

  /** Year, month and day as plain integers. */
  datatype Ymd = Ymd(year: int, month: int, day: int)

  /** A calendar date (`datetime.date`): only valid dates exist. */
  type Date = d: Ymd | ValidDate(d.year, d.month, d.day) witness Ymd(1, 1, 1)

  /** `datetime.date(y, m, d)`: the date, or `ValueError` when out of range. */
  function MakeDate(year: int, month: int, day: int): (r: Result<Date>)
    ensures r.Ok? <==> ValidDate(year, month, day)
    ensures r.Ok? ==> r.value == Ymd(year, month, day)
  {
    if ValidDate(year, month, day) then Ok(Ymd(year, month, day))
    else Err(ValueError("date value out of range"))
  }

  predicate ValidTime(hour: int, minute: int, second: int, microsecond: int)
  {
    0 <= hour < 24 && 0 <= minute < 60 && 0 <= second < 60 && 0 <= microsecond < 1000000
  }

  /** Hour, minute, second and microsecond as plain integers. */
  datatype Hms = Hms(hour: int, minute: int, second: int, microsecond: int)

  /** A time of day with microseconds (`datetime.time`): only valid times exist. */
  type Time = t: Hms | ValidTime(t.hour, t.minute, t.second, t.microsecond) witness Hms(0, 0, 0, 0)

  /** `datetime.time(h, m, s, us)`: the time, or `ValueError` when a field is out of range. */
  function MakeTime(hour: int, minute: int, second: int, microsecond: int): (r: Result<Time>)
    ensures r.Ok? <==> ValidTime(hour, minute, second, microsecond)
    ensures r.Ok? ==> r.value == Hms(hour, minute, second, microsecond)
  {
    if ValidTime(hour, minute, second, microsecond) then Ok(Hms(hour, minute, second, microsecond))
    else Err(ValueError("time value out of range"))
  }

  /** Seconds with their fraction, `second + microsecond / 1e6`. */
  function Seconds(t: Time): (s: real)
    ensures 0.0 <= s < 60.0
  {
    t.second as real + t.microsecond as real / 1000000.0
  }

  /**
    `decimal_time` for one event: the year plus the elapsed seconds of the
    year over the length of that year (365 or 366 days). Computed in exact
    arithmetic; floating-point rounding is not modelled.
   */
  function DecimalTime(year: int, month: int, day: int, hour: int, minute: int, second: real): (t: real)
    requires 1 <= month <= 12
    ensures (t - year as real) * (DaysBefore(year, 13) * 86400) as real ==
            DayCount(year, month, day) as real * 86400.0 + second + 60.0 * minute as real + 3600.0 * hour as real
  {
    YearLength(year);
    var yearSecs := DayCount(year, month, day) as real * 86400.0 + second + 60.0 * minute as real + 3600.0 * hour as real;
    year as real + if LeapCheck(year) then yearSecs / 31622400.0 else yearSecs / 31536000.0
  }

  /** Seconds elapsed in the year before the given valid date and time. */
  lemma YearSecondsBound(d: Date, t: Time)
    ensures 0.0 <= DayCount(d.year, d.month, d.day) as real * 86400.0 + Seconds(t) + 60.0 * t.minute as real + 3600.0 * t.hour as real
    ensures DayCount(d.year, d.month, d.day) as real * 86400.0 + Seconds(t) + 60.0 * t.minute as real + 3600.0 * t.hour as real
            < if LeapCheck(d.year) then 31622400.0 else 31536000.0
  {
    DayCountRange(d.year, d.month, d.day);
  }

  /** The decimal time of a valid date and time lies within its year. */
  lemma DecimalTimeWithinYear(d: Date, t: Time)
    ensures d.year as real <= DecimalTime(d.year, d.month, d.day, t.hour, t.minute, Seconds(t)) < d.year as real + 1.0
  {
    YearSecondsBound(d, t);
  }

  /** `decimal_year`: the year plus the common-year day count over 365. */
  function DecimalYear(year: int, month: int, day: int): (t: real)
    requires 1 <= month <= 12
    ensures !LeapCheck(year) ==> t == DecimalTime(year, month, day, 0, 0, 0.0)
    ensures (t - year as real) * 365.0 == (DaysBefore(1, month) + day - 1) as real
  {
    MarkersAreCumulative(1, month - 1);
    MarkersAreCumulative(year, month - 1);
    year as real + DecimalYearDayCount(month, day) as real / 365.0
  }

  /** The legacy `decimal_year` stays within the year for every valid date. */
  lemma DecimalYearWithinYear(d: Date)
    ensures d.year as real <= DecimalYear(d.year, d.month, d.day) < d.year as real + 1.0
  {
    DecimalYearIgnoresLeap(d.year, d.month, d.day);
    DayCountRange(d.year, d.month, d.day);
  }

  /** Ignoring leap days, `decimal_year` gives 29 February and 1 March of a leap year the same value. */
  lemma DecimalYearLeapDayCollides(year: int)
    requires LeapCheck(year)
    ensures DecimalYear(year, 2, 29) == DecimalYear(year, 3, 1)
  {
  }
}
