/** Proleptic Gregorian calendar dates with the range and arithmetic of Python's
    `datetime`: validity, the day after a date, day ordinals and the epoch
    seconds that `_to_epoch_time` computes.  An instant is a date at midnight. */
module Calendar {

  datatype Date = Date(year: int, month: int, day: int)

  /** `datetime.MINYEAR` and `datetime.MAXYEAR`. */
  const MinYear := 1
  const MaxYear := 9999

  /** The order of `datetime` values, which for dates is lexicographic. */
  predicate Before(a: Date, b: Date) {
    a.year < b.year || (a.year == b.year && (a.month < b.month || (a.month == b.month && a.day < b.day)))
  }

  predicate IsLeap(y: int) {
    y % 4 == 0 && (y % 100 != 0 || y % 400 == 0)
  }

  function DaysInMonth(y: int, m: int): int {
    if m == 2 then (if IsLeap(y) then 29 else 28)
    else if m == 4 || m == 6 || m == 9 || m == 11 then 30
    else 31
  }

  function DaysInYear(y: int): int {
    if IsLeap(y) then 366 else 365
  }

  /** A date `datetime` can represent. */
  predicate Valid(d: Date) {
    MinYear <= d.year <= MaxYear && 1 <= d.month <= 12 && 1 <= d.day <= DaysInMonth(d.year, d.month)
  }

  /** The calendar day after `d` (the date part of `d + timedelta(days=1)`, before
      `datetime` checks its range). */
  function NextDay(d: Date): Date {
    if d.day < DaysInMonth(d.year, d.month) then Date(d.year, d.month, d.day + 1)
    else if d.month < 12 then Date(d.year, d.month + 1, 1)
    else Date(d.year + 1, 1, 1)
  }

  /** Days before 1 January of year `y`, counted from 1 January of year 1. */
  function DaysBeforeYear(y: int): int {
    var p := y - 1;
    365 * p + p / 4 - p / 100 + p / 400
  }

  /** Days of year `y` before the first of month `m`, by `datetime`'s table. */
  function DaysBeforeMonth(y: int, m: int): int {
    var common :=
      if m == 2 then 31 else if m == 3 then 59 else if m == 4 then 90
      else if m == 5 then 120 else if m == 6 then 151 else if m == 7 then 181
      else if m == 8 then 212 else if m == 9 then 243 else if m == 10 then 273
      else if m == 11 then 304 else if m == 12 then 334 else 0;
    common + (if m > 2 && m <= 12 && IsLeap(y) then 1 else 0)
  }

  /** `date.toordinal()`: day 1 is 1 January of year 1. */
  function Ordinal(d: Date): int {
    DaysBeforeYear(d.year) + DaysBeforeMonth(d.year, d.month) + d.day
  }

  const Epoch := Date(1970, 1, 1)

  /** `_to_epoch_time(d)`: whole seconds from the local-time epoch
      `datetime.fromtimestamp(0)` to midnight of `d`, where `utcOffset` is how
      many seconds local time was ahead of UTC at the epoch. */
  function LocalEpochSeconds(d: Date, utcOffset: int): int {
    (Ordinal(d) - Ordinal(Epoch)) * 86400 - utcOffset
  }

  lemma MonthStep(y: int, m: int)
    requires 1 <= m < 12
    ensures DaysBeforeMonth(y, m + 1) == DaysBeforeMonth(y, m) + DaysInMonth(y, m)
  {
  }

  lemma YearStep(y: int)
    requires y >= MinYear
    ensures DaysBeforeYear(y + 1) == DaysBeforeYear(y) + DaysInYear(y)
    ensures DaysBeforeMonth(y, 12) + DaysInMonth(y, 12) == DaysInYear(y)
  {
    DivStep(y, 4);
    DivStep(y, 100);
    DivStep(y, 400);
  }

  /** Moving from `y - 1` to `y` adds one to `y / k` exactly when `k` divides `y`. */
  lemma DivStep(y: int, k: int)
    requires k > 0
    ensures y / k == (y - 1) / k + (if y % k == 0 then 1 else 0)
  {
    var q, r := (y - 1) / k, (y - 1) % k;
    assert y - 1 == q * k + r && 0 <= r < k;
    if r == k - 1 {
      DivUnique(y, k, q + 1, 0);
    } else {
      DivUnique(y, k, q, r + 1);
    }
  }

  /** Euclidean division has one quotient and one remainder. */
  lemma DivUnique(y: int, k: int, a: int, b: int)
    requires k > 0 && 0 <= b < k && y == a * k + b
    ensures y / k == a && y % k == b
  {
    var a0, b0 := y / k, y % k;
    assert y == a0 * k + b0 && 0 <= b0 < k;
    var d := a - a0;
    assert d * k == b0 - b;
    if d >= 1 {
      MulAtLeast(d, k);
    } else if d <= -1 {
      MulAtLeast(-d, k);
    }
  }

  /** A positive multiple of `k` is at least `k`. */
  lemma {:induction false} MulAtLeast(d: int, k: int)
    requires d >= 1 && k >= 0
    ensures d * k >= k
    decreases d
  {
    if d > 1 {
      MulAtLeast(d - 1, k);
      assert d * k == (d - 1) * k + k;
    }
  }


  /** The day after a date is the next ordinal, and is later. */
  lemma NextDayOrdinal(d: Date)
    requires Valid(d)
    ensures Before(d, NextDay(d))
    ensures Ordinal(NextDay(d)) == Ordinal(d) + 1
    ensures NextDay(d).year <= MaxYear ==> Valid(NextDay(d))
  {
    if d.day == DaysInMonth(d.year, d.month) {
      if d.month < 12 {
        MonthStep(d.year, d.month);
      } else {
        YearStep(d.year);
      }
    }
  }

  /** No valid date lies strictly between a date and the day after it. */
  lemma NextDayIsImmediate(d: Date, e: Date)
    requires Valid(d) && Valid(e) && Before(e, NextDay(d))
    ensures e == d || Before(e, d)
  {
  }

  lemma {:induction false} MonthsIncrease(y: int, m1: int, m2: int)
    requires 1 <= m1 < m2 <= 12
    ensures DaysBeforeMonth(y, m1) + DaysInMonth(y, m1) <= DaysBeforeMonth(y, m2)
    decreases m2 - m1
  {
    MonthStep(y, m1);
    if m1 + 1 < m2 {
      MonthsIncrease(y, m1 + 1, m2);
    }
  }

  lemma {:induction false} YearsIncrease(y1: int, y2: int)
    requires MinYear <= y1 < y2
    ensures DaysBeforeYear(y1) + DaysInYear(y1) <= DaysBeforeYear(y2)
    decreases y2 - y1
  {
    YearStep(y1);
    if y1 + 1 < y2 {
      YearsIncrease(y1 + 1, y2);
    }
  }

  /** The epoch itself is `-utcOffset` seconds from local midnight of
      1 January 1970, each following day adds 86400 seconds, and the offset
      shifts every date by the same amount. */
  lemma EpochSecondsStep(d: Date, utcOffset: int)
    requires Valid(d)
    ensures LocalEpochSeconds(Epoch, utcOffset) == -utcOffset
    ensures LocalEpochSeconds(NextDay(d), utcOffset) == LocalEpochSeconds(d, utcOffset) + 86400
    ensures LocalEpochSeconds(d, utcOffset) == LocalEpochSeconds(d, 0) - utcOffset
  {
    NextDayOrdinal(d);
  }

  /** Ordinals, and hence epoch seconds, follow the order of dates. */
  lemma OrdinalMonotone(a: Date, b: Date)
    requires Valid(a) && Valid(b) && Before(a, b)
    ensures Ordinal(a) < Ordinal(b)
  {
    if a.year < b.year {
      if a.month < 12 {
        MonthsIncrease(a.year, a.month, 12);
      }
      YearStep(a.year);
      YearsIncrease(a.year, b.year);
    } else if a.month < b.month {
      MonthsIncrease(a.year, a.month, b.month);
    }
  }

  lemma EpochSecondsMonotone(a: Date, b: Date, utcOffset: int)
    requires Valid(a) && Valid(b) && Before(a, b)
    ensures LocalEpochSeconds(a, utcOffset) + 86400 <= LocalEpochSeconds(b, utcOffset)
  {
    OrdinalMonotone(a, b);
  }
}
