/**
 * Proleptic Gregorian day arithmetic as Python's `datetime` module does it:
 * a date's ordinal counts days from 0001-01-01 (ordinal 1), and an aware
 * datetime's `.timestamp()` is its distance from 1970-01-01T00:00:00+00:00.
 */
module Calendar {

  predicate IsLeap(y: int) { y % 4 == 0 && (y % 100 != 0 || y % 400 == 0) }

  function DaysInYear(y: int): int { if IsLeap(y) then 366 else 365 }

  function DaysInMonth(y: int, m: int): (n: int)
    requires 1 <= m <= 12
    ensures 28 <= n <= 31
  {
    if m == 2 then (if IsLeap(y) then 29 else 28)
    else if m == 4 || m == 6 || m == 9 || m == 11 then 30
    else 31
  }

  /** A date `datetime.date` accepts: years 1 to 9999, a real month and day. */
  predicate ValidDate(y: int, m: int, d: int)
  {
    1 <= y <= 9999 && 1 <= m <= 12 && 1 <= d <= DaysInMonth(y, m)
  }

  /** Days in the years before `year`, closed form (`_days_before_year`). */
  function DaysBeforeYear(year: int): int
  {
    var y := year - 1;
    y * 365 + y / 4 - y / 100 + y / 400
  }

  /** Days in the months of year `y` before month `m` (`_days_before_month`). */
  function DaysBeforeMonth(y: int, m: int): int
    requires 1 <= m <= 12
  {
    [0, 31, 59, 90, 120, 151, 181, 212, 243, 273, 304, 334][m - 1]
      + (if m > 2 && IsLeap(y) then 1 else 0)
  }

  /** `date(y, m, d).toordinal()`. */
  function Ordinal(y: int, m: int, d: int): int
    requires 1 <= m <= 12
  {
    DaysBeforeYear(y) + DaysBeforeMonth(y, m) + d
  }

  /** The ordinal of 1970-01-01. */
  const UnixEpochOrdinal: int := 719163

  /** Seconds from the Unix epoch to the local time y-m-d h:mi:s at `offset` seconds east of UTC. */
  function EpochSeconds(y: int, m: int, d: int, h: int, mi: int, s: int, offset: int): int
    requires 1 <= m <= 12
  {
    (Ordinal(y, m, d) - UnixEpochOrdinal) * 86400 + h * 3600 + mi * 60 + s - offset
  }

  // ---- Reference definitions: counting days one year / one month at a time ----

  function DaysBeforeYearByCount(year: int): int
    requires year >= 1
    decreases year
  {
    if year == 1 then 0 else DaysBeforeYearByCount(year - 1) + DaysInYear(year - 1)
  }

  function DaysBeforeMonthByCount(y: int, m: int): int
    requires 1 <= m <= 12
    decreases m
  {
    if m == 1 then 0 else DaysBeforeMonthByCount(y, m - 1) + DaysInMonth(y, m - 1)
  }

  /** The next calendar day. */
  function NextDay(y: int, m: int, d: int): (r: (int, int, int))
    requires ValidDate(y, m, d)
    ensures 1 <= r.1 <= 12
  {
    if d < DaysInMonth(y, m) then (y, m, d + 1)
    else if m < 12 then (y, m + 1, 1)
    else (y + 1, 1, 1)
  }

  // ---- Lemmas ----

  lemma DivStep(a: int, k: int)
    requires k > 0
    ensures a / k - (a - 1) / k == (if a % k == 0 then 1 else 0)
  {
    var q, r := a / k, a % k;
    assert a == k * q + r && 0 <= r < k;
    if r == 0 {
      assert a - 1 == k * (q - 1) + (k - 1);
      DivUnique(a - 1, k, q - 1, k - 1);
    } else {
      assert a - 1 == k * q + (r - 1);
      DivUnique(a - 1, k, q, r - 1);
    }
  }

  lemma DivUnique(a: int, k: int, q: int, r: int)
    requires k > 0 && 0 <= r < k && a == k * q + r
    ensures a / k == q
  {
    var q', r' := a / k, a % k;
    assert a == k * q' + r' && 0 <= r' < k;
    var t := q' - q;
    assert k * q' == k * q + k * t;
    assert k * t == r - r';
    if t > 0 {
      MulAtLeast(k, t);
    } else if t < 0 {
      MulAtLeast(k, -t);
    }
  }

  lemma {:induction false} MulAtLeast(k: int, t: int)
    requires k > 0 && t >= 1
    ensures k * t >= k
    decreases t
  {
    if t > 1 {
      MulAtLeast(k, t - 1);
      assert k * t == k * (t - 1) + k;
    }
  }

  /** The closed form grows by one year length per year. */
  lemma YearStep(y: int)
    ensures DaysBeforeYear(y + 1) == DaysBeforeYear(y) + DaysInYear(y)
  {
    DivStep(y, 4);
    DivStep(y, 100);
    DivStep(y, 400);
    assert y % 100 == 0 ==> y % 4 == 0 by {
      if y % 100 == 0 {
        var q := y / 100;
        assert y == 100 * q;
        assert y == 4 * (25 * q);
        DivUnique(y, 4, 25 * q, 0);
      }
    }
    assert y % 400 == 0 ==> y % 100 == 0 by {
      if y % 400 == 0 {
        var q := y / 400;
        assert y == 400 * q;
        assert y == 100 * (4 * q);
        DivUnique(y, 100, 4 * q, 0);
      }
    }
  }

  /** The closed form `_days_before_year` equals adding up year lengths from year 1. */
  lemma {:induction false} DaysBeforeYearCounts(year: int)
    requires year >= 1
    ensures DaysBeforeYear(year) == DaysBeforeYearByCount(year)
    decreases year
  {
    if year > 1 {
      DaysBeforeYearCounts(year - 1);
      YearStep(year - 1);
    }
  }

  /** The month table equals adding up month lengths from January. */
  lemma DaysBeforeMonthCounts(y: int, m: int)
    requires 1 <= m <= 12
    ensures DaysBeforeMonth(y, m) == DaysBeforeMonthByCount(y, m)
  {
  }

  /** A valid date's day of the year lies between 1 and the length of its year. */
  lemma DayOfYearBounds(y: int, m: int, d: int)
    requires ValidDate(y, m, d)
    ensures 1 <= DaysBeforeMonth(y, m) + d <= DaysInYear(y)
  {
  }

  /** Consecutive calendar days have consecutive ordinals. */
  lemma NextDayOrdinal(y: int, m: int, d: int)
    requires ValidDate(y, m, d)
    ensures var (y', m', d') := NextDay(y, m, d); Ordinal(y', m', d') == Ordinal(y, m, d) + 1
  {
    if d == DaysInMonth(y, m) && m == 12 {
      YearStep(y);
    }
  }

  /** The ordinal follows calendar order: a later date has a larger ordinal. */
  lemma {:induction false} OrdinalMonotonic(y: int, m: int, d: int, y': int, m': int, d': int)
    requires ValidDate(y, m, d) && ValidDate(y', m', d')
    requires y < y' || (y == y' && (m < m' || (m == m' && d < d')))
    ensures Ordinal(y, m, d) < Ordinal(y', m', d')
    decreases y' - y
  {
    if y == y' {
      if m < m' {
        MonthsBefore(y, m, m');
      }
    } else {
      DayOfYearBounds(y, m, d);
      YearStep(y);
      if y + 1 < y' {
        OrdinalMonotonic(y + 1, 1, 1, y', m', d');
      }
    }
  }

  lemma MonthsBefore(y: int, m: int, m': int)
    requires 1 <= m < m' <= 12
    ensures DaysBeforeMonth(y, m) + DaysInMonth(y, m) <= DaysBeforeMonth(y, m')
  {
  }

  /** A valid date's ordinal lies among the ordinals of its own year. */
  lemma OrdinalInYear(y: int, m: int, d: int)
    requires ValidDate(y, m, d)
    ensures DaysBeforeYear(y) < Ordinal(y, m, d) <= DaysBeforeYear(y + 1)
  {
    DayOfYearBounds(y, m, d);
    YearStep(y);
  }

  /** The same local time on the next calendar day is 86400 seconds later. */
  lemma EpochSecondsNextDay(y: int, m: int, d: int, h: int, mi: int, s: int, offset: int)
    requires ValidDate(y, m, d)
    ensures var (y', m', d') := NextDay(y, m, d);
      EpochSeconds(y', m', d', h, mi, s, offset) == EpochSeconds(y, m, d, h, mi, s, offset) + 86400
  {
    NextDayOrdinal(y, m, d);
  }

  /** 1970-01-01T00:00:00+00:00 is second zero, and a day later is 86400. */
  lemma UnixEpochIsZero()
    ensures Ordinal(1970, 1, 1) == UnixEpochOrdinal
    ensures EpochSeconds(1970, 1, 1, 0, 0, 0, 0) == 0
    ensures EpochSeconds(1970, 1, 2, 0, 0, 0, 0) == 86400
  {
  }
}
