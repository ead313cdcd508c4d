/** The calendar and the matching of instants in closed form: days are counted from years that begin in March, and the
    day of the week is Zeller's congruence. */
module CivilDates {
  import opened Calendar
  import opened CronParse
  import opened CronNext

  // -------------------------------------------------------------------- closed forms

  /** January and February belong to the year before. */
  function MarchYear(y: int, m: int): int { if m <= 2 then y - 1 else y }

  function MarchMonth(m: int): int { if m <= 2 then m + 12 else m }

  /** The number of the day d of month m of year y, 1 January of year 1 being day 0. */
  function CivilDay(y: int, m: int, d: int): int {
    var a := MarchYear(y, m);
    365 * a + a / 4 - a / 100 + a / 400 + (153 * (MarchMonth(m) - 3) + 2) / 5 + d - 307
  }

  /** Zeller's congruence, counted from Sunday. */
  function Zeller(y: int, m: int, d: int): int {
    var a := MarchYear(y, m);
    (d + 13 * (MarchMonth(m) + 1) / 5 + a + a / 4 - a / 100 + a / 400 + 6) % 7
  }

  lemma Quarter(y: int)
    ensures y / 4 - (y - 1) / 4 == if y % 4 == 0 then 1 else 0
  {
  }

  lemma Century(y: int)
    ensures y / 100 - (y - 1) / 100 == if y % 100 == 0 then 1 else 0
  {
  }

  lemma Quadricentury(y: int)
    ensures y / 400 - (y - 1) / 400 == if y % 400 == 0 then 1 else 0
  {
  }

  lemma Centuries(a: int)
    ensures 400 * a % 100 == 0
  {
    assert 400 * a == 100 * (4 * a);
  }

  lemma Fours(b: int)
    ensures 100 * b % 4 == 0
  {
    assert 100 * b == 4 * (25 * b);
  }

  lemma Divisible(y: int)
    ensures y % 400 == 0 ==> y % 100 == 0
    ensures y % 100 == 0 ==> y % 4 == 0
  {
    Centuries(y / 400);
    Fours(y / 100);
    assert y % 400 == 0 ==> y == 400 * (y / 400);
    assert y % 100 == 0 ==> y == 100 * (y / 100);
  }

  /** Leap days before the end of year y. */
  function LeapsTo(y: int): int { y / 4 - y / 100 + y / 400 }

  lemma OneYear(y: int)
    ensures DaysInYear(y) == 365 + LeapsTo(y) - LeapsTo(y - 1)
  {
    Quarter(y);
    Century(y);
    Quadricentury(y);
    Divisible(y);
  }

  lemma {:induction false} YearStartIs(y: int)
    ensures YearStart(y) == 365 * (y - 1) + LeapsTo(y - 1)
    decreases if y < 1 then 1 - y else y - 1
  {
    hide LeapsTo, DaysInYear;
    if y == 1 {
      assert LeapsTo(0) == 0 by { NoLeaps(); }
    } else if y > 1 {
      YearStartIs(y - 1);
      OneYear(y - 1);
    } else {
      YearStartIs(y + 1);
      OneYear(y);
    }
  }

  lemma NoLeaps()
    ensures LeapsTo(0) == 0
  {
  }

  /** Days of the year before month m. */
  lemma {:induction false} MonthStartIs(y: int, m: int)
    requires 1 <= m <= 12
    ensures MonthStart(y, m) == YearStart(y) + (if m == 1 then 0 else if m == 2 then 31
                                                else (153 * (m - 3) + 2) / 5 + (if IsLeap(y) then 60 else 59))
  {
    hide YearStart, IsLeap;
    if m > 1 {
      MonthStartIs(y, m - 1);
    }
  }

  /** The calendar counts days as the closed form does. */
  lemma DayNumberIs(y: int, m: int, d: int)
    requires 1 <= m <= 12
    ensures MonthStart(y, m) + d - 1 == CivilDay(y, m, d)
  {
    hide MonthStart, YearStart;
    MonthStartIs(y, m);
    YearStartIs(y);
    OneYear(y);
  }

  lemma MonthTerms(m: int)
    requires 3 <= m <= 14
    ensures (153 * (m - 3) + 2) / 5 == 13 * (m + 1) / 5 + 28 * (m - 3) - 10
  {
  }

  lemma WeeksApart(x: int, y: int, k: int)
    requires x == y + 7 * k
    ensures x % 7 == y % 7
  {
  }

  /** The day of the week of every date is the one Zeller's congruence gives. */
  lemma WeekdayIs(y: int, m: int, d: int)
    requires 1 <= m <= 12
    ensures WeekdayOf(MonthStart(y, m) + d - 1) == Zeller(y, m, d)
  {
    hide MonthStart;
    DayNumberIs(y, m, d);
    var a, mm := MarchYear(y, m), MarchMonth(m);
    MonthTerms(mm);
    var z := d + 13 * (mm + 1) / 5 + a + a / 4 - a / 100 + a / 400 + 6;
    WeeksApart(CivilDay(y, m, d) + 1, z, 52 * a + 4 * (mm - 3) - 46);
  }

  /** For instance: 1 January 2024 was a Monday. */
  lemma NewYear2024()
    ensures WeekdayOf(MonthStart(2024, 1)) == 1
  {
    var y, m, d := 2024, 1, 1;
    WeekdayIs(y, m, d);
  }

  // ----------------------------------------------------------------- instants by date

  ghost predicate IsDate(y: int, m: int, d: int) { 1 <= m <= 12 && 1 <= d <= DaysInMonth(y, m) }

  /** The wall-clock minute h:i on a date. */
  function WallMinute(y: int, m: int, d: int, h: int, i: int): int { (CivilDay(y, m, d) * 24 + h) * 60 + i }

  lemma ClockIs(n: int, h: int, i: int)
    requires 0 <= h <= 23 && 0 <= i <= 59
    ensures var w := (n * 24 + h) * 60 + i; w / 1440 == n && w % 1440 / 60 == h && w % 60 == i
  {
    var w := (n * 24 + h) * 60 + i;
    assert w == n * 1440 + (h * 60 + i);
    assert w / 1440 == n && w % 1440 == h * 60 + i;
  }

  /** Every minute is h:i on some date. */
  lemma DateOfMinute(w: int) returns (y: int, m: int, d: int, h: int, i: int)
    ensures IsDate(y, m, d) && 0 <= h <= 23 && 0 <= i <= 59 && w == WallMinute(y, m, d, h, i)
  {
    hide YearOf, MonthOf, MonthStart, CivilDay;
    var n := w / 1440;
    y, m, d, h, i := YearOf(n), MonthOf(n), DayOf(n), w % 1440 / 60, w % 60;
    DayNumberIs(y, m, d);
    assert w % 1440 % 60 == w % 60;
  }

  lemma FullIff(m: Mask, spec: FieldSpec)
    ensures IsFull(m, spec) <==> forall v | 0 <= v < 64 :: Bit(m, v) <==> spec.min <= v <= spec.max
  {
    forall v | 0 <= v < 64 ensures Bit(m, v) == m[v] {
    }
  }

  /** Which minutes match, said by date and clock: month, hour and minute are selected, and so is the day, by the day of
      the month and the day of the week. When both of these are restricted either will do, otherwise both must hold. */
  lemma MatchesIff(c: Cron, loc: Location, y: int, m: int, d: int, h: int, i: int)
    requires IsDate(y, m, d) && 0 <= h <= 23 && 0 <= i <= 59
    ensures var anyDay := forall v | 0 <= v < 64 :: Bit(c.dom, v) <==> 1 <= v <= 31;
            var anyWeekday := forall v | 0 <= v < 64 :: Bit(c.dow, v) <==> 0 <= v <= 6;
            var day, weekday := Bit(c.dom, d), Bit(c.dow, Zeller(y, m, d));
            Matches(c, loc, WallMinute(y, m, d, h, i) - loc.offset)
            <==> && Bit(c.month, m) && Bit(c.hour, h) && Bit(c.minute, i)
                 && if !anyDay && !anyWeekday then day || weekday else day && weekday
  {
    hide YearOf, MonthOf, DayOf, MonthStart, CivilDay, Zeller, WeekdayOf, Bit, IsFull;
    FullIff(c.dom, DAYS);
    FullIff(c.dow, WEEKDAYS);
    var n := CivilDay(y, m, d);
    DayNumberIs(y, m, d);
    WeekdayIs(y, m, d);
    DateRoundTrip(y, m, d);
    ClockIs(n, h, i);
  }

  /** The same clock on the same date of another year; a 29 February that does not exist counts on to 1 March. */
  lemma YearsLater(loc: Location, y: int, m: int, d: int, h: int, i: int, x: int, years: int)
    requires IsDate(y, m, d) && 0 <= h <= 23 && 0 <= i <= 59 && 0 <= x < MINUTE
    ensures AddYears(Time((WallMinute(y, m, d, h, i) - loc.offset) * MINUTE + x, loc), years)
            == (WallMinute(y + years, m, d, h, i) - loc.offset) * MINUTE + x
  {
    hide YearOf, MonthOf, DayOf, MonthStart, CivilDay;
    var n := CivilDay(y, m, d);
    DayNumberIs(y, m, d);
    DayNumberIs(y + years, m, d);
    DateRoundTrip(y, m, d);
    ClockIs(n, h, i);
    InMinute(WallMinute(y, m, d, h, i), loc, x);
  }

  lemma InMinute(w: int, loc: Location, x: int)
    requires 0 <= x < MINUTE
    ensures LocalMinute((w - loc.offset) * MINUTE + x, loc) == w
  {
  }

  lemma NoLeapDay(y: int)
    requires !IsLeap(y)
    ensures CivilDay(y, 2, 29) == CivilDay(y, 3, 1)
  {
    hide YearStart;
    DayNumberIs(y, 2, 29);
    DayNumberIs(y, 3, 1);
  }
}
