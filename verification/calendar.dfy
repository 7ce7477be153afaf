/**
 * Date-times as the log parser produces them, and their conversion to a
 * count of seconds. The count is the proleptic Gregorian day number (day 1 is
 * 0001-01-01) minus one, times 86400, plus the seconds of the day, so comparing counts
 * compares date-times and adding a number of minutes times 60 moves a
 * date-time forward by that many minutes.
 */
module Calendar {
  import opened Basics

  datatype DateTime = DateTime(year: int, month: int, day: int, hour: int, minute: int, second: int)

  predicate IsLeapYear(y: int) {
    y % 4 == 0 && (y % 100 != 0 || y % 400 == 0)
  }

  function DaysInMonth(y: int, m: int): (n: int)
    requires 1 <= m <= 12
    ensures 28 <= n <= 31
  {
    if m == 2 then (if IsLeapYear(y) then 29 else 28)
    else if m == 4 || m == 6 || m == 9 || m == 11 then 30
    else 31
  }

  function DaysInYear(y: int): int {
    if IsLeapYear(y) then 366 else 365
  }

  /**
   * The date-times accepted by the timestamp conversion: a four-digit year
   * from 1, a month, a day that exists in that month, and a time of day with
   * no leap second.
   */
  predicate Valid(dt: DateTime) {
    && 1 <= dt.year <= 9999
    && 1 <= dt.month <= 12
    && 1 <= dt.day <= DaysInMonth(dt.year, dt.month)
    && 0 <= dt.hour < 24
    && 0 <= dt.minute < 60
    && 0 <= dt.second < 60
  }

  /** The number of days in the years before `y`: 365 each, plus one per leap year. */
  function DaysBeforeYear(y: int): int
    requires y >= 1
  {
    var n := y - 1;
    n * 365 + n / 4 - n / 100 + n / 400
  }

  /** One more multiple of `d` is passed exactly when `n + 1` is one. */
  lemma DivStep(n: nat, d: nat)
    requires d == 4 || d == 100 || d == 400
    ensures (n + 1) / d == n / d + (if (n + 1) % d == 0 then 1 else 0)
  {
    if d == 4 {
      assert (n + 1) / 4 == n / 4 + (if (n + 1) % 4 == 0 then 1 else 0);
    } else if d == 100 {
      assert (n + 1) / 100 == n / 100 + (if (n + 1) % 100 == 0 then 1 else 0);
    } else {
      assert (n + 1) / 400 == n / 400 + (if (n + 1) % 400 == 0 then 1 else 0);
    }
  }

  /** A multiple of 400 is a multiple of 100, and a multiple of 100 is a multiple of 4. */
  lemma CenturyMultiples(y: int)
    ensures y % 400 == 0 ==> y % 100 == 0
    ensures y % 100 == 0 ==> y % 4 == 0
  {
    if y % 400 == 0 {
      QuadCenturyIsCentury(y);
    }
    if y % 100 == 0 {
      CenturyIsLeapCandidate(y);
    }
  }

  lemma QuadCenturyIsCentury(y: int)
    requires y % 400 == 0
    ensures y % 100 == 0
  {
    var k := y / 400;
    assert y == 100 * (4 * k);
  }

  lemma CenturyIsLeapCandidate(y: int)
    requires y % 100 == 0
    ensures y % 4 == 0
  {
    var k := y / 100;
    assert y == 4 * (25 * k);
  }

  /** Each year adds its own length to the day count. */
  lemma DaysBeforeNextYear(y: int)
    requires y >= 1
    ensures DaysBeforeYear(y + 1) == DaysBeforeYear(y) + DaysInYear(y)
  {
    var n := y - 1;
    DivStep(n, 4);
    DivStep(n, 100);
    DivStep(n, 400);
    CenturyMultiples(y);
    var i4 := if y % 4 == 0 then 1 else 0;
    var i100 := if y % 100 == 0 then 1 else 0;
    var i400 := if y % 400 == 0 then 1 else 0;
    assert DaysBeforeYear(y + 1) == DaysBeforeYear(y) + 365 + i4 - i100 + i400;
    assert DaysInYear(y) == 365 + i4 - i100 + i400;
  }

  /** The number of days in the months of year `y` before month `m`. */
  function DaysBeforeMonth(y: int, m: int): int
    requires 1 <= m <= 12
  {
    if m == 1 then 0 else DaysBeforeMonth(y, m - 1) + DaysInMonth(y, m - 1)
  }

  /** The day number of a valid date; 0001-01-01 is day 1. */
  function Ordinal(dt: DateTime): int
    requires Valid(dt)
  {
    DaysBeforeYear(dt.year) + DaysBeforeMonth(dt.year, dt.month) + dt.day
  }

  /** The seconds elapsed since 0001-01-01 00:00:00. */
  function Seconds(dt: DateTime): int
    requires Valid(dt)
  {
    (Ordinal(dt) - 1) * 86400 + dt.hour * 3600 + dt.minute * 60 + dt.second
  }

  /** The count starts at zero: 0001-01-01 00:00:00, day number 1, has count 0. */
  lemma EpochIsZero()
    ensures Ordinal(DateTime(1, 1, 1, 0, 0, 0)) == 1
    ensures Seconds(DateTime(1, 1, 1, 0, 0, 0)) == 0
  {
  }

  /** Chronological order: lexicographic on (year, month, day, hour, minute, second). */
  predicate Before(a: DateTime, b: DateTime) {
    || a.year < b.year
    || (a.year == b.year && a.month < b.month)
    || (a.year == b.year && a.month == b.month && a.day < b.day)
    || (a.year == b.year && a.month == b.month && a.day == b.day && a.hour < b.hour)
    || (a.year == b.year && a.month == b.month && a.day == b.day && a.hour == b.hour && a.minute < b.minute)
    || (a.year == b.year && a.month == b.month && a.day == b.day && a.hour == b.hour && a.minute == b.minute
        && a.second < b.second)
  }

  /** The months of a year add up to the length of the year. */
  lemma MonthsFillYear(y: int)
    ensures DaysBeforeMonth(y, 12) + DaysInMonth(y, 12) == DaysInYear(y)
  {
    assert DaysBeforeMonth(y, 2) == 31;
    assert DaysBeforeMonth(y, 3) == 31 + DaysInMonth(y, 2);
    assert DaysBeforeMonth(y, 4) == 62 + DaysInMonth(y, 2);
    assert DaysBeforeMonth(y, 5) == 92 + DaysInMonth(y, 2);
    assert DaysBeforeMonth(y, 6) == 123 + DaysInMonth(y, 2);
    assert DaysBeforeMonth(y, 7) == 153 + DaysInMonth(y, 2);
    assert DaysBeforeMonth(y, 8) == 184 + DaysInMonth(y, 2);
    assert DaysBeforeMonth(y, 9) == 215 + DaysInMonth(y, 2);
    assert DaysBeforeMonth(y, 10) == 245 + DaysInMonth(y, 2);
    assert DaysBeforeMonth(y, 11) == 276 + DaysInMonth(y, 2);
    assert DaysBeforeMonth(y, 12) == 306 + DaysInMonth(y, 2);
  }

  /** Later months start later: month `m` ends no later than month `m2` starts. */
  lemma {:induction false} MonthsOrdered(y: int, m: int, m2: int)
    requires 1 <= m < m2 <= 12
    ensures DaysBeforeMonth(y, m) + DaysInMonth(y, m) <= DaysBeforeMonth(y, m2)
    decreases m2 - m
  {
    if m + 1 < m2 {
      MonthsOrdered(y, m + 1, m2);
    }
  }

  /** Year `y` ends no later than year `y2` starts. */
  lemma {:induction false} YearsOrdered(y: int, y2: int)
    requires 1 <= y < y2
    ensures DaysBeforeYear(y) + DaysInYear(y) <= DaysBeforeYear(y2)
    decreases y2 - y
  {
    DaysBeforeNextYear(y);
    if y + 1 < y2 {
      YearsOrdered(y + 1, y2);
    }
  }

  /** The day of the year of a valid date lies within the year. */
  lemma DayOfYearBounds(dt: DateTime)
    requires Valid(dt)
    ensures 1 <= DaysBeforeMonth(dt.year, dt.month) + dt.day <= DaysInYear(dt.year)
  {
    MonthsFillYear(dt.year);
    if dt.month < 12 {
      MonthsOrdered(dt.year, dt.month, 12);
    }
    if dt.month > 1 {
      MonthsOrdered(dt.year, 1, dt.month);
    }
  }

  /** A chronologically earlier date-time has the smaller day number, or the same day. */
  lemma OrdinalMonotone(a: DateTime, b: DateTime)
    requires Valid(a) && Valid(b) && Before(a, b)
    ensures Ordinal(a) <= Ordinal(b)
    ensures Ordinal(a) == Ordinal(b) ==> a.year == b.year && a.month == b.month && a.day == b.day
  {
    DayOfYearBounds(a);
    DayOfYearBounds(b);
    if a.year < b.year {
      YearsOrdered(a.year, b.year);
    } else if a.month < b.month {
      MonthsOrdered(a.year, a.month, b.month);
    }
  }

  /** Converting to seconds preserves chronological order. */
  lemma SecondsMonotone(a: DateTime, b: DateTime)
    requires Valid(a) && Valid(b) && Before(a, b)
    ensures Seconds(a) < Seconds(b)
  {
    OrdinalMonotone(a, b);
  }

  /**
   * Comparing second counts is comparing date-times: the conversion is an
   * order embedding, and in particular one-to-one.
   */
  lemma SecondsOrder(a: DateTime, b: DateTime)
    requires Valid(a) && Valid(b)
    ensures Before(a, b) <==> Seconds(a) < Seconds(b)
    ensures a == b <==> Seconds(a) == Seconds(b)
  {
    if Before(a, b) {
      SecondsMonotone(a, b);
    } else if Before(b, a) {
      SecondsMonotone(b, a);
    }
  }

  // ---------------------------------------------------------------------------
  // Counting forward
  // ---------------------------------------------------------------------------

  /** The last date-time the conversion accepts. */
  const LastDateTime := DateTime(9999, 12, 31, 23, 59, 59)

  /**
   * The calendar date-time one second after `dt`: the second ticks, and a
   * full minute, hour, day, month or year carries into the next unit.
   */
  function NextSecond(dt: DateTime): (r: DateTime)
    requires Valid(dt) && dt != LastDateTime
    ensures Valid(r) && Before(dt, r)
  {
    if dt.second < 59 then dt.(second := dt.second + 1)
    else if dt.minute < 59 then dt.(minute := dt.minute + 1, second := 0)
    else if dt.hour < 23 then dt.(hour := dt.hour + 1, minute := 0, second := 0)
    else if dt.day < DaysInMonth(dt.year, dt.month) then DateTime(dt.year, dt.month, dt.day + 1, 0, 0, 0)
    else if dt.month < 12 then DateTime(dt.year, dt.month + 1, 1, 0, 0, 0)
    else DateTime(dt.year + 1, 1, 1, 0, 0, 0)
  }

  /** Every valid date-time is at or before the last one. */
  lemma AtMostLast(dt: DateTime)
    requires Valid(dt)
    ensures Seconds(dt) <= Seconds(LastDateTime)
  {
    if dt != LastDateTime {
      assert Before(dt, LastDateTime);
      SecondsMonotone(dt, LastDateTime);
    }
  }

  /** The last second of one day is followed by the first second of the next. */
  lemma MidnightTick(a: DateTime, b: DateTime)
    requires Valid(a) && Valid(b) && Ordinal(b) == Ordinal(a) + 1
    requires a.hour == 23 && a.minute == 59 && a.second == 59
    requires b.hour == 0 && b.minute == 0 && b.second == 0
    ensures Seconds(b) == Seconds(a) + 1
  {
    var o := Ordinal(a);
    assert o * 86400 == (o - 1) * 86400 + 86400;
  }

  /** The last day of a month is followed by the first day of the next month. */
  lemma MonthRollover(y: int, m: int)
    requires 1 <= y <= 9999 && 1 <= m < 12
    ensures Ordinal(DateTime(y, m, DaysInMonth(y, m), 23, 59, 59)) + 1 == Ordinal(DateTime(y, m + 1, 1, 0, 0, 0))
  {
  }

  /** The last day of a year is followed by the first day of the next year. */
  lemma YearRollover(y: int)
    requires 1 <= y < 9999
    ensures Ordinal(DateTime(y, 12, 31, 23, 59, 59)) + 1 == Ordinal(DateTime(y + 1, 1, 1, 0, 0, 0))
  {
    MonthsFillYear(y);
    DaysBeforeNextYear(y);
  }

  /**
   * The count advances by exactly one per calendar second, across minute,
   * hour, day, month and year boundaries alike: it counts elapsed seconds.
   */
  lemma NextSecondCounts(dt: DateTime)
    requires Valid(dt) && dt != LastDateTime
    ensures Seconds(NextSecond(dt)) == Seconds(dt) + 1
  {
    var r := NextSecond(dt);
    if dt.second < 59 || dt.minute < 59 || dt.hour < 23 {
      assert Ordinal(r) == Ordinal(dt);
    } else {
      if dt.day < DaysInMonth(dt.year, dt.month) {
      } else if dt.month < 12 {
        MonthRollover(dt.year, dt.month);
      } else {
        YearRollover(dt.year);
      }
      MidnightTick(dt, r);
    }
  }

  /** No date-time lies strictly between `dt` and the next second. */
  lemma NextSecondIsNext(dt: DateTime, other: DateTime)
    requires Valid(dt) && dt != LastDateTime && Valid(other) && Before(dt, other)
    ensures other == NextSecond(dt) || Before(NextSecond(dt), other)
  {
    NextSecondCounts(dt);
    SecondsOrder(dt, other);
    SecondsOrder(NextSecond(dt), other);
  }

  /**
   * The date-time `k` seconds after `dt`, counted one calendar second at a
   * time; None when it would pass the last date-time, where adding a time
   * span to a date-time raises an overflow error.
   */
  function Advance(dt: DateTime, k: nat): (r: Option<DateTime>)
    requires Valid(dt)
    ensures r.Some? ==> Valid(r.value) && Seconds(r.value) == Seconds(dt) + k
    ensures r.None? <==> Seconds(dt) + k > Seconds(LastDateTime)
    decreases k
  {
    AtMostLast(dt);
    if k == 0 then Some(dt)
    else if dt == LastDateTime then None
    else
      NextSecondCounts(dt);
      Advance(NextSecond(dt), k - 1)
  }

  /**
   * Comparing a date-time with the end of a window of `minutes` minutes is
   * comparing its count with the start's count plus `60 * minutes`.
   */
  lemma WithinWindow(start: DateTime, minutes: nat, t: DateTime)
    requires Valid(start) && Valid(t) && Advance(start, 60 * minutes).Some?
    ensures var end := Advance(start, 60 * minutes).value;
      (Before(t, end) || t == end) <==> Seconds(t) <= Seconds(start) + 60 * minutes
  {
    SecondsOrder(t, Advance(start, 60 * minutes).value);
  }
}
