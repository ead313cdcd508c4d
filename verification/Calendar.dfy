/** Proleptic Gregorian calendar in fixed-offset zones, as the scheduler uses Go's `time` package.
    An instant counts nanoseconds from Go's zero time, midnight UTC on 1 January of year 1. */
module Calendar {
  const MINUTE: int := 60_000_000_000
  const DAY: int := 86_400_000_000_000

  /** A zone with a fixed offset from UTC in whole minutes. */
  datatype Location = Location(offset: int)

  const UTC := Location(0)

  /** A time.Time: the instant, and the zone its calendar fields are read in. */
  datatype Time = Time(ns: int, loc: Location)

  // --------------------------------------------------------------- year, month, day

  predicate IsLeap(y: int) { y % 4 == 0 && (y % 100 != 0 || y % 400 == 0) }

  function DaysInMonth(y: int, m: int): (n: int)
    requires 1 <= m <= 12
    ensures 28 <= n <= 31
  {
    if m == 2 then (if IsLeap(y) then 29 else 28)
    else if m == 4 || m == 6 || m == 9 || m == 11 then 30
    else 31
  }

  function DaysInYear(y: int): int { if IsLeap(y) then 366 else 365 }

  /** Days from 1 January of year 1 to 1 January of year y. */
  function YearStart(y: int): int
    decreases if y < 1 then 1 - y else y - 1
  {
    if y == 1 then 0
    else if y > 1 then YearStart(y - 1) + DaysInYear(y - 1)
    else YearStart(y + 1) - DaysInYear(y)
  }

  /** First day of month m; m == 13 is the first day of the next year. */
  function MonthStart(y: int, m: int): int
    requires 1 <= m <= 13
    decreases m
  {
    if m == 1 then YearStart(y) else MonthStart(y, m - 1) + DaysInMonth(y, m - 1)
  }

  lemma YearLength(y: int)
    ensures YearStart(y + 1) == YearStart(y) + DaysInYear(y)
  {
    if y < 1 {
      assert YearStart(y) == YearStart(y + 1) - DaysInYear(y);
    } else {
      assert YearStart(y + 1) == YearStart(y) + DaysInYear(y);
    }
  }

  lemma MonthsFillYear(y: int)
    ensures MonthStart(y, 13) == YearStart(y + 1)
  {
    YearLength(y);
    assert MonthStart(y, 4) == YearStart(y) + 59 + (if IsLeap(y) then 1 else 0) + 31;
    assert MonthStart(y, 7) == MonthStart(y, 4) + 91;
    assert MonthStart(y, 10) == MonthStart(y, 7) + 92;
    assert MonthStart(y, 13) == MonthStart(y, 10) + 92;
  }

  /** The year of day n, walking from year y. */
  function YearFrom(n: int, y: int): (r: int)
    ensures YearStart(r) <= n < YearStart(r + 1)
    decreases if n < YearStart(y) then YearStart(y) - n else n - YearStart(y)
  {
    YearLength(y);
    YearLength(y - 1);
    if n < YearStart(y - 1) then YearFrom(n, y - 1)
    else if n < YearStart(y) then y - 1
    else if n < YearStart(y + 1) then y
    else YearFrom(n, y + 1)
  }

  function YearOf(n: int): (y: int)
    ensures YearStart(y) <= n < YearStart(y + 1)
  {
    YearFrom(n, 1)
  }

  function MonthFrom(n: int, y: int, m: int): (r: int)
    requires 1 <= m <= 12 && MonthStart(y, m) <= n < MonthStart(y, 13)
    ensures m <= r <= 12 && MonthStart(y, r) <= n < MonthStart(y, r + 1)
    decreases 12 - m
  {
    if n < MonthStart(y, m + 1) then m else MonthFrom(n, y, m + 1)
  }

  function MonthOf(n: int): (m: int)
    ensures 1 <= m <= 12 && MonthStart(YearOf(n), m) <= n < MonthStart(YearOf(n), m + 1)
  {
    MonthsFillYear(YearOf(n));
    MonthFrom(n, YearOf(n), 1)
  }

  /** Day of the month, from 1. */
  function DayOf(n: int): (d: int)
    ensures 1 <= d <= DaysInMonth(YearOf(n), MonthOf(n))
  {
    n - MonthStart(YearOf(n), MonthOf(n)) + 1
  }

  /** Day of the week, Sunday being 0; 1 January of year 1 was a Monday. */
  function WeekdayOf(n: int): (w: int)
    ensures 0 <= w <= 6
  {
    (n + 1) % 7
  }

  lemma {:induction false} YearStartMonotone(a: int, b: int)
    requires a <= b
    ensures YearStart(a) + 365 * (b - a) <= YearStart(b)
    decreases b - a
  {
    if a < b {
      YearLength(a);
      YearStartMonotone(a + 1, b);
    }
  }

  lemma {:induction false} MonthStartMonotone(y: int, a: int, b: int)
    requires 1 <= a <= b <= 13
    ensures MonthStart(y, a) + 28 * (b - a) <= MonthStart(y, b)
    decreases b - a
  {
    if a < b {
      MonthStartMonotone(y, a, b - 1);
    }
  }

  lemma MonthInYear(y: int, m: int)
    requires 1 <= m <= 12
    ensures YearStart(y) <= MonthStart(y, m) && MonthStart(y, m + 1) <= YearStart(y + 1)
  {
    MonthStartMonotone(y, 1, m);
    MonthStartMonotone(y, m + 1, 13);
    MonthsFillYear(y);
  }

  /** Reading the fields of a date gives the date back: the calendar has no gaps and no overlaps. */
  lemma DateRoundTrip(y: int, m: int, d: int)
    requires 1 <= m <= 12 && 1 <= d <= DaysInMonth(y, m)
    ensures var n := MonthStart(y, m) + d - 1; YearOf(n) == y && MonthOf(n) == m && DayOf(n) == d
  {
    hide MonthStart, YearStart, YearOf, MonthOf, DaysInMonth;
    var n := MonthStart(y, m) + d - 1;
    MonthLength(y, m);
    MonthInYear(y, m);
    SameYear(n, y);
    SameMonth(n, y, m);
  }

  lemma MonthLength(y: int, m: int)
    requires 1 <= m <= 12
    ensures MonthStart(y, m + 1) == MonthStart(y, m) + DaysInMonth(y, m)
  {
    hide YearStart, DaysInMonth;
  }

  lemma SameYear(n: int, y: int)
    requires YearStart(y) <= n < YearStart(y + 1)
    ensures YearOf(n) == y
  {
    hide YearStart;
    if YearOf(n) < y {
      YearStartMonotone(YearOf(n) + 1, y);
    } else if y < YearOf(n) {
      YearStartMonotone(y + 1, YearOf(n));
    }
  }

  lemma SameMonth(n: int, y: int, m: int)
    requires 1 <= m <= 12 && YearOf(n) == y && MonthStart(y, m) <= n < MonthStart(y, m + 1)
    ensures MonthOf(n) == m
  {
    hide MonthStart, YearOf;
    MonthUnique(n, y, m, MonthOf(n));
  }

  lemma MonthUnique(n: int, y: int, a: int, b: int)
    requires 1 <= a <= 12 && 1 <= b <= 12
    requires MonthStart(y, a) <= n < MonthStart(y, a + 1) && MonthStart(y, b) <= n < MonthStart(y, b + 1)
    ensures a == b
  {
    if a < b {
      MonthStartMonotone(y, a + 1, b);
    } else if b < a {
      MonthStartMonotone(y, b + 1, a);
    }
  }

  // ------------------------------------------------------------------ time.Time

  /** Minutes of wall clock since the zero date, in zone loc. */
  function LocalMinute(ns: int, loc: Location): int { ns / MINUTE + loc.offset }

  function DayNumber(ns: int, loc: Location): int { LocalMinute(ns, loc) / 1440 }

  function Hour(ns: int, loc: Location): (h: int)
    ensures 0 <= h <= 23
  {
    LocalMinute(ns, loc) % 1440 / 60
  }

  function Minute(ns: int, loc: Location): (m: int)
    ensures 0 <= m <= 59
  {
    LocalMinute(ns, loc) % 60
  }

  /** time.Date(y, m, d, h, 0, 0, 0, loc): d and h may run over and carry, as in Go. */
  function Date(y: int, m: int, d: int, h: int, loc: Location): int
    requires 1 <= m <= 12
  {
    ((MonthStart(y, m) + d - 1) * 1440 + h * 60 - loc.offset) * MINUTE
  }

  /** t.AddDate(years, 0, 0) in the zone t carries; a 29 February that does not exist becomes 1 March. */
  function AddYears(t: Time, years: int): int {
    var n := DayNumber(t.ns, t.loc);
    t.ns + (MonthStart(YearOf(n) + years, MonthOf(n)) + DayOf(n) - 1 - n) * DAY
  }

  lemma FourYearsLater(n: int)
    ensures n + 1000 < MonthStart(YearOf(n) + 4, MonthOf(n))
  {
    YearStartMonotone(YearOf(n) + 1, YearOf(n) + 4);
    MonthInYear(YearOf(n) + 4, MonthOf(n));
  }

  lemma AddYearsForward(t: Time)
    ensures t.ns < AddYears(t, 4)
  {
    hide YearOf, MonthOf, YearStart, MonthStart;
    FourYearsLater(DayNumber(t.ns, t.loc));
  }
}
