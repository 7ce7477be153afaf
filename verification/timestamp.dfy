/**
 * Reading the timestamp text of a log line as a date-time, in the layout
 * `%Y-%m-%d %H:%M:%S`, and writing a date-time back in that layout. Reading
 * succeeds exactly for the texts that are the layout of a valid date-time.
 */
module Timestamp {
  import opened Basics
  import opened Calendar
  import opened LogFormat

  function DigitValue(c: char): (d: nat)
    requires IsDigit(c)
    ensures d <= 9
  {
    c as int - '0' as int
  }

  function DigitChar(d: nat): (c: char)
    requires d <= 9
    ensures IsDigit(c) && DigitValue(c) == d
  {
    ('0' as int + d) as char
  }

  /** The number written by the two digits at `i`. */
  function TwoDigits(s: string, i: nat): (n: nat)
    requires i + 2 <= |s| && IsDigit(s[i]) && IsDigit(s[i + 1])
    ensures n <= 99
  {
    10 * DigitValue(s[i]) + DigitValue(s[i + 1])
  }

  /** The six numbers of a timestamp-shaped text, not yet checked against the calendar. */
  function Numbers(ts: string): DateTime
    requires TimestampShaped(ts)
  {
    DateTime(100 * TwoDigits(ts, 0) + TwoDigits(ts, 2), TwoDigits(ts, 5), TwoDigits(ts, 8),
             TwoDigits(ts, 11), TwoDigits(ts, 14), TwoDigits(ts, 17))
  }

  /** `n` in two digits, with a leading zero when needed. */
  function Pad2(n: nat): (s: string)
    requires n <= 99
    ensures |s| == 2 && IsDigit(s[0]) && IsDigit(s[1]) && TwoDigits(s, 0) == n
  {
    [DigitChar(n / 10), DigitChar(n % 10)]
  }

  /** Numbers that fit the layout: a year of four digits, the rest of two. */
  predicate Printable(dt: DateTime) {
    0 <= dt.year <= 9999 && 0 <= dt.month <= 99 && 0 <= dt.day <= 99
    && 0 <= dt.hour <= 99 && 0 <= dt.minute <= 99 && 0 <= dt.second <= 99
  }

  /** Two characters, both digits. */
  predicate DigitPair(p: string) {
    |p| == 2 && IsDigit(p[0]) && IsDigit(p[1])
  }

  /** Seven digit pairs laid out as `CCYY-MM-DD hh:mm:ss`. */
  function Layout(c: string, y: string, mo: string, d: string, h: string, mi: string, se: string): string
    requires DigitPair(c) && DigitPair(y) && DigitPair(mo) && DigitPair(d)
    requires DigitPair(h) && DigitPair(mi) && DigitPair(se)
  {
    [c[0], c[1], y[0], y[1], '-', mo[0], mo[1], '-', d[0], d[1], ' ',
     h[0], h[1], ':', mi[0], mi[1], ':', se[0], se[1]]
  }

  /** The layout is timestamp-shaped, and reading it gives back the numbers of the seven pairs. */
  lemma LayoutNumbers(c: string, y: string, mo: string, d: string, h: string, mi: string, se: string)
    requires DigitPair(c) && DigitPair(y) && DigitPair(mo) && DigitPair(d)
    requires DigitPair(h) && DigitPair(mi) && DigitPair(se)
    ensures var s := Layout(c, y, mo, d, h, mi, se);
      && TimestampShaped(s)
      && Numbers(s) == DateTime(100 * TwoDigits(c, 0) + TwoDigits(y, 0), TwoDigits(mo, 0), TwoDigits(d, 0),
                               TwoDigits(h, 0), TwoDigits(mi, 0), TwoDigits(se, 0))
  {
  }

  /** The date-time in the layout `YYYY-MM-DD HH:MM:SS`. */
  function Format(dt: DateTime): (s: string)
    requires Printable(dt)
    ensures TimestampShaped(s) && Numbers(s) == dt
  {
    var c, y := Pad2(dt.year / 100), Pad2(dt.year % 100);
    var mo, d := Pad2(dt.month), Pad2(dt.day);
    var h, mi, se := Pad2(dt.hour), Pad2(dt.minute), Pad2(dt.second);
    LayoutNumbers(c, y, mo, d, h, mi, se);
    Layout(c, y, mo, d, h, mi, se)
  }

  /** Two digits read as a number and written again are the same two digits. */
  lemma Pad2TwoDigits(s: string, i: nat)
    requires i + 2 <= |s| && IsDigit(s[i]) && IsDigit(s[i + 1])
    ensures Pad2(TwoDigits(s, i)) == [s[i], s[i + 1]]
  {
    var n := TwoDigits(s, i);
    assert n / 10 == DigitValue(s[i]) && n % 10 == DigitValue(s[i + 1]);
  }

  /** Writing the numbers read from a timestamp gives back the same text. */
  lemma FormatNumbers(ts: string)
    requires TimestampShaped(ts)
    ensures Printable(Numbers(ts)) && Format(Numbers(ts)) == ts
  {
    var dt := Numbers(ts);
    var hi, lo := TwoDigits(ts, 0), TwoDigits(ts, 2);
    assert dt.year / 100 == hi && dt.year % 100 == lo;
    Pad2TwoDigits(ts, 0);
    Pad2TwoDigits(ts, 2);
    Pad2TwoDigits(ts, 5);
    Pad2TwoDigits(ts, 8);
    Pad2TwoDigits(ts, 11);
    Pad2TwoDigits(ts, 14);
    Pad2TwoDigits(ts, 17);
    var s := Format(dt);
    assert forall k | 0 <= k < 19 :: s[k] == ts[k];
  }

  /**
   * The conversion of a timestamp text: the date-time it denotes, or None
   * when the calendar has no such date-time (month 13, February 30, hour 24,
   * second 60, year 0, ...).
   */
  function Strptime(ts: string): (r: Option<DateTime>)
    requires TimestampShaped(ts)
    ensures r.Some? ==> Valid(r.value) && Format(r.value) == ts
    ensures r.None? ==> forall dt :: Valid(dt) ==> Format(dt) != ts
  {
    FormatNumbers(ts);
    if Valid(Numbers(ts)) then Some(Numbers(ts)) else None
  }
}
