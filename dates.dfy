/**
 * Python `datetime` values as integer tuples, ordered chronologically,
 * with the one-second step `timedelta(seconds=1)` adds or removes.
 */
module Dates {
  import opened Wrappers
  import opened Text

  datatype DateTime = DateTime(year: int, month: int, day: int, hour: int, minute: int, second: int, micro: int)

  predicate IsLeap(y: int)
  {
    y % 4 == 0 && (y % 100 != 0 || y % 400 == 0)
  }

  function DaysIn(y: int, m: int): int
    requires 1 <= m <= 12
  {
    if m == 2 then (if IsLeap(y) then 29 else 28)
    else if m == 4 || m == 6 || m == 9 || m == 11 then 30
    else 31
  }

  lemma DaysInBound(y: int, m: int)
    requires 1 <= m <= 12
    ensures 28 <= DaysIn(y, m) <= 31
  {
  }

  /** A value `datetime` accepts: years 1 to 9999, real calendar days, microsecond resolution. */
  predicate Valid(d: DateTime)
  {
    && 1 <= d.year <= 9999 && 1 <= d.month <= 12 && 1 <= d.day <= DaysIn(d.year, d.month)
    && 0 <= d.hour < 24 && 0 <= d.minute < 60 && 0 <= d.second < 60 && 0 <= d.micro < 1000000
  }

  /**
   * `strftime('%Y-%m-%d')`, the name of a day's upload folder. The C
   * library prints `%Y` without padding, so a year below 1000 gives a
   * shorter name (`5-01-01`); month and day always take two digits.
   */
  function DayText(d: DateTime): (r: string)
    requires Valid(d)
    ensures |r| == 10 <==> d.year >= 1000
    ensures |r| >= 7 && r[|r| - 6] == '-' && r[|r| - 3] == '-'
    ensures r[..|r| - 6] == NatToString(d.year)
  {
    DaysInBound(d.year, d.month);
    NatToStringLength(d.year);
    var y := NatToString(d.year);
    var tail := "-" + TwoDigits(d.month) + "-" + TwoDigits(d.day);
    assert |tail| == 6 && tail[0] == '-' && tail[3] == '-';
    var r := y + tail;
    assert r[..|y|] == y;
    r
  }

  /** `%m` and `%d`: a number below 100 zero-padded to two digits. */
  function TwoDigits(n: nat): (r: string)
    requires n < 100
    ensures |r| == 2
  {
    NatToStringLength(n);
    ZeroPad(NatToString(n), 2)
  }

  /** `a < b` between datetimes. */
  predicate Before(a: DateTime, b: DateTime)
  {
    if a.year != b.year then a.year < b.year
    else if a.month != b.month then a.month < b.month
    else if a.day != b.day then a.day < b.day
    else if a.hour != b.hour then a.hour < b.hour
    else if a.minute != b.minute then a.minute < b.minute
    else if a.second != b.second then a.second < b.second
    else a.micro < b.micro
  }

  /** `a <= b`. */
  predicate NotAfter(a: DateTime, b: DateTime)
  {
    !Before(b, a)
  }

  /** `<=` is a total preorder: any two values compare, and it chains. */
  lemma NotAfterTotalPreorder(a: DateTime, b: DateTime, c: DateTime)
    ensures NotAfter(a, b) || NotAfter(b, a)
    ensures NotAfter(a, b) && NotAfter(b, c) ==> NotAfter(a, c)
  {
    BeforeIsStrictOrder(a, b, c);
    BeforeIsStrictOrder(c, a, b);
    BeforeIsStrictOrder(b, c, a);
  }

  lemma BeforeIsStrictOrder(a: DateTime, b: DateTime, c: DateTime)
    ensures !Before(a, a)
    ensures Before(a, b) ==> !Before(b, a)
    ensures Before(a, b) && Before(b, c) ==> Before(a, c)
    ensures a != b ==> Before(a, b) || Before(b, a)
  {
  }

  /** `start <= t <= end`; empty when `end` precedes `start`. */
  predicate InRange(t: DateTime, start: DateTime, end: DateTime)
  {
    NotAfter(start, t) && NotAfter(t, end)
  }

  lemma InvertedRangeIsEmpty(start: DateTime, end: DateTime, t: DateTime)
    requires Before(end, start)
    ensures !InRange(t, start, end)
  {
    BeforeIsStrictOrder(end, start, t);
    BeforeIsStrictOrder(t, end, start);
  }

  /** `d + timedelta(seconds=1)`; None past the largest datetime (`OverflowError`). */
  function AddSecond(d: DateTime): Option<DateTime>
    requires Valid(d)
  {
    if d.second < 59 then Some(d.(second := d.second + 1))
    else if d.minute < 59 then Some(d.(minute := d.minute + 1, second := 0))
    else if d.hour < 23 then Some(d.(hour := d.hour + 1, minute := 0, second := 0))
    else if d.day < DaysIn(d.year, d.month) then Some(d.(day := d.day + 1, hour := 0, minute := 0, second := 0))
    else if d.month < 12 then Some(d.(month := d.month + 1, day := 1, hour := 0, minute := 0, second := 0))
    else if d.year < 9999 then Some(d.(year := d.year + 1, month := 1, day := 1, hour := 0, minute := 0, second := 0))
    else None
  }

  /** `d - timedelta(seconds=1)`; None before the smallest datetime (`OverflowError`). */
  function SubSecond(d: DateTime): (r: Option<DateTime>)
    requires Valid(d)
    ensures r.Some? ==> Valid(r.value) && Before(r.value, d)
    ensures r.None? <==> (d.year, d.month, d.day, d.hour, d.minute, d.second) == (1, 1, 1, 0, 0, 0)
  {
    if d.second > 0 then Some(d.(second := d.second - 1))
    else if d.minute > 0 then Some(d.(minute := d.minute - 1, second := 59))
    else if d.hour > 0 then Some(d.(hour := d.hour - 1, minute := 59, second := 59))
    else if d.day > 1 then Some(d.(day := d.day - 1, hour := 23, minute := 59, second := 59))
    else if d.month > 1 then Some(d.(month := d.month - 1, day := DaysIn(d.year, d.month - 1), hour := 23, minute := 59, second := 59))
    else if d.year > 1 then Some(DateTime(d.year - 1, 12, 31, 23, 59, 59, d.micro))
    else None
  }

  /** Stepping back one second and forward again returns to the same moment. */
  lemma SubThenAddSecond(d: DateTime)
    requires Valid(d) && SubSecond(d).Some?
    ensures AddSecond(SubSecond(d).value) == Some(d)
  {
  }

  /** The last second before the first of a month is the last second of the month before, at the same microsecond. */
  lemma SubSecondFromFirstOfMonth(y: int, m: int, us: int)
    requires 1 <= y <= 9999 && 1 <= m <= 12 && 0 <= us < 1000000
    requires y > 1 || m > 1
    ensures var prev := if m == 1 then (y - 1, 12) else (y, m - 1);
      SubSecond(DateTime(y, m, 1, 0, 0, 0, us)) == Some(DateTime(prev.0, prev.1, DaysIn(prev.0, prev.1), 23, 59, 59, us))
  {
  }
}
