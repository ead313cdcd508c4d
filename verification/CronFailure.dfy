/** When Cron.Next can fail: exactly when the day of the week is unrestricted and every selected
    month and day combination is missing from common years. */
module CronFailure {
  import opened Wrappers
  import opened Text
  import opened Calendar
  import opened CronParse
  import opened CronNext

  ghost predicate Selects(m: Mask, spec: FieldSpec) { exists v :: spec.min <= v <= spec.max && Bit(m, v) }

  /** Every field selects a value of its range, as every parsed expression does. */
  ghost predicate Inhabited(c: Cron) {
    && Selects(c.minute, MINUTES) && Selects(c.hour, HOURS) && Selects(c.dom, DAYS)
    && Selects(c.month, MONTHS) && Selects(c.dow, WEEKDAYS)
  }

  lemma ParsedFieldSelects(field: string, spec: FieldSpec)
    requires spec.Valid() && FieldMask(field, spec).Ok?
    ensures Selects(FieldMask(field, spec).value, spec)
  {
    FieldMaskMeaning(field, spec);
    var parts := ParseParts(Split(field, ','), spec).value;
    assert Bit(FieldMask(field, spec).value, parts[0].lo);
  }

  lemma ParsedIsInhabited(expr: string)
    requires ParseResult(expr).Ok?
    ensures Inhabited(ParseResult(expr).value)
  {
    hide FieldMask;
    var f := Fields(TrimSpace(expr));
    ParsedFieldSelects(f[0], MINUTES);
    ParsedFieldSelects(f[1], HOURS);
    ParsedFieldSelects(f[2], DAYS);
    ParsedFieldSelects(f[3], MONTHS);
    ParsedFieldSelects(f[4], WEEKDAYS);
  }

  // ------------------------------------------------------------- the two conditions

  /** Days of month m in a common year, and in a leap year. */
  function CommonDays(m: int): int { if m == 2 then 28 else if m == 4 || m == 6 || m == 9 || m == 11 then 30 else 31 }

  function LeapDays(m: int): int { if m == 2 then 29 else CommonDays(m) }

  /** The day of the week is unrestricted and no selected date exists in a common year. */
  ghost predicate OnlyRareDates(c: Cron) {
    && IsFull(c.dow, WEEKDAYS)
    && forall m, d | 1 <= m <= 12 && 1 <= d <= 31 && Bit(c.month, m) && Bit(c.dom, d) :: CommonDays(m) < d
  }

  /** The day of the week is unrestricted and no selected date exists in any year. */
  ghost predicate OnlyImpossibleDates(c: Cron) {
    && IsFull(c.dow, WEEKDAYS)
    && forall m, d | 1 <= m <= 12 && 1 <= d <= 31 && Bit(c.month, m) && Bit(c.dom, d) :: LeapDays(m) < d
  }

  ghost predicate Fails(c: Cron, from: Time, loc: Location) { IsNext(c, from, loc, None) }

  // -------------------------------------------------------- finding a matching minute

  /** Day n of the year after from's matches: then Next does not fail. */
  lemma MatchInNextYear(c: Cron, from: Time, loc: Location, n: int)
    requires Inhabited(c)
    requires YearOf(n) == YearOf(DayNumber(from.ns, loc)) + 1
    requires Bit(c.month, MonthOf(n)) && DayMatches(c, n)
    ensures !Fails(c, from, loc)
  {
    hide YearOf, MonthOf, DayMatches, AddYears, Matches;
    var h :| 0 <= h <= 23 && Bit(c.hour, h);
    var i :| 0 <= i <= 59 && Bit(c.minute, i);
    var w := n * 1440 + h * 60 + i;
    MatchAt(c, loc, n, h, i);
    NextYearInWindow(from, loc, n, w);
  }

  lemma MatchAt(c: Cron, loc: Location, n: int, h: int, i: int)
    requires 0 <= h <= 23 && Bit(c.hour, h) && 0 <= i <= 59 && Bit(c.minute, i)
    requires Bit(c.month, MonthOf(n)) && DayMatches(c, n)
    ensures Matches(c, loc, n * 1440 + h * 60 + i - loc.offset)
  {
    hide MonthOf, DayMatches, Bit;
    ClockParts(n, h, i);
  }

  lemma ClockParts(n: int, h: int, i: int)
    requires 0 <= h <= 23 && 0 <= i <= 59
    ensures var w := n * 1440 + h * 60 + i; w / 1440 == n && w % 1440 / 60 == h && w % 60 == i
  {
    var w := n * 1440 + h * 60 + i;
    assert w / 1440 == n && w % 1440 == h * 60 + i;
    assert w == 60 * (n * 24 + h) + i;
  }

  lemma NextYearInWindow(from: Time, loc: Location, n: int, w: int)
    requires YearOf(n) == YearOf(DayNumber(from.ns, loc)) + 1 && n * 1440 <= w < n * 1440 + 1440
    ensures from.ns < (w - loc.offset) * MINUTE < AddYears(from, 4)
  {
    var n0 := DayNumber(from.ns, loc);
    var y := YearOf(n0);
    YearLength(y);
    YearLength(y + 1);
    assert n0 < n <= n0 + 732;
    var k := from.ns / MINUTE;
    assert k + loc.offset < n * 1440 && n * 1440 - loc.offset < k + 733 * 1440;
    MinutesToInstants(from.ns, w - loc.offset);
    FourYearsLater(DayNumber(from.ns, from.loc));
    DeadlineIsFar(from);
  }

  lemma MinutesToInstants(ns: int, k: int)
    requires ns / MINUTE < k < ns / MINUTE + 734 * 1440
    ensures ns < k * MINUTE < ns + 735 * DAY
  {
  }

  lemma DeadlineIsFar(from: Time)
    ensures from.ns + 1000 * DAY < AddYears(from, 4)
  {
    hide YearOf, MonthOf, YearStart, MonthStart;
    FourYearsLater(DayNumber(from.ns, from.loc));
  }

  lemma WeekdayWithin(n: int, wd: int) returns (x: int)
    requires 0 <= wd <= 6
    ensures n <= x < n + 7 && WeekdayOf(x) == wd
  {
    x := n + (wd - WeekdayOf(n)) % 7;
  }

  lemma RestrictedWeekdayMatches(c: Cron, y: int) returns (n: int)
    requires Inhabited(c) && !IsFull(c.dow, WEEKDAYS)
    ensures YearOf(n) == y && Bit(c.month, MonthOf(n)) && DayMatches(c, n)
  {
    hide YearOf, MonthOf, MonthStart;
    var m :| 1 <= m <= 12 && Bit(c.month, m);
    var wd :| 0 <= wd <= 6 && Bit(c.dow, wd);
    n := WeekdayWithin(MonthStart(y, m), wd);
    DateRoundTrip(y, m, n - MonthStart(y, m) + 1);
  }

  lemma CommonDateMatches(c: Cron, y: int) returns (n: int)
    requires IsFull(c.dow, WEEKDAYS) && !OnlyRareDates(c)
    ensures YearOf(n) == y && Bit(c.month, MonthOf(n)) && DayMatches(c, n)
  {
    hide YearOf, MonthOf, DayOf, MonthStart;
    var m, d :| 1 <= m <= 12 && 1 <= d <= 31 && Bit(c.month, m) && Bit(c.dom, d) && d <= CommonDays(m);
    DateRoundTrip(y, m, d);
    n := MonthStart(y, m) + d - 1;
    FullWeekday(c, n);
  }

  /** If the weekday is restricted, or some selected date is in every year, Next never fails. */
  lemma NeverFails(c: Cron, from: Time, loc: Location)
    requires Inhabited(c) && !OnlyRareDates(c)
    ensures !Fails(c, from, loc)
  {
    hide Inhabited, OnlyRareDates, Fails, YearOf, MonthOf, DayMatches;
    var y := YearOf(DayNumber(from.ns, loc)) + 1;
    var n: int;
    if !IsFull(c.dow, WEEKDAYS) {
      n := RestrictedWeekdayMatches(c, y);
    } else {
      n := CommonDateMatches(c, y);
    }
    MatchInNextYear(c, from, loc, n);
  }

  // ---------------------------------------------------------------- failing everywhere

  lemma ImpossibleNoMatch(c: Cron, loc: Location, k: int)
    requires OnlyImpossibleDates(c)
    ensures !Matches(c, loc, k)
  {
    hide DayMatches, OnlyImpossibleDates, YearOf, MonthOf, DayOf;
    ImpossibleDay(c, (k + loc.offset) / 1440);
  }

  lemma ImpossibleNeverMatches(c: Cron, loc: Location, from: Time)
    requires OnlyImpossibleDates(c)
    ensures Fails(c, from, loc)
  {
    hide AddYears, Matches, OnlyImpossibleDates;
    forall k ensures !Matches(c, loc, k) {
      ImpossibleNoMatch(c, loc, k);
    }
  }

  lemma ImpossibleDay(c: Cron, n: int)
    requires OnlyImpossibleDates(c)
    ensures !(Bit(c.month, MonthOf(n)) && DayMatches(c, n))
  {
    assert DayOf(n) <= LeapDays(MonthOf(n));
  }

  lemma FullWeekday(c: Cron, n: int)
    requires IsFull(c.dow, WEEKDAYS) && Bit(c.dom, DayOf(n))
    ensures DayMatches(c, n)
  {
  }

  /** In the year before a leap year, any selected date of a leap year is within reach. */
  lemma PossibleDateMatches(c: Cron, loc: Location, m: int, d: int, y: int)
    requires Inhabited(c) && IsFull(c.dow, WEEKDAYS) && IsLeap(y)
    requires 1 <= m <= 12 && 1 <= d <= LeapDays(m) && Bit(c.month, m) && Bit(c.dom, d)
    ensures !Fails(c, Time(Instant(MonthStart(y - 1, 1) * 1440, loc), loc), loc)
  {
    hide Instant, IsNext, Inhabited, IsFull, DayMatches, YearOf, MonthOf, DayOf, YearStart;
    DateRoundTrip(y, m, d);
    DateRoundTrip(y - 1, 1, 1);
    WallClock(MonthStart(y - 1, 1) * 1440, loc);
    var n := MonthStart(y, m) + d - 1;
    FullWeekday(c, n);
    MatchInNextYear(c, Time(Instant(MonthStart(y - 1, 1) * 1440, loc), loc), loc, n);
  }

  /** Next fails at every instant exactly when the expression selects only impossible dates. */
  lemma AlwaysFails(c: Cron, loc: Location)
    requires Inhabited(c)
    ensures (forall from: Time :: Fails(c, from, loc)) <==> OnlyImpossibleDates(c)
  {
    hide Fails;
    if OnlyImpossibleDates(c) {
      forall from: Time ensures Fails(c, from, loc) {
        ImpossibleNeverMatches(c, loc, from);
      }
    } else if !IsFull(c.dow, WEEKDAYS) {
      NeverFails(c, Time(0, loc), loc);
    } else {
      var m, d :| 1 <= m <= 12 && 1 <= d <= 31 && Bit(c.month, m) && Bit(c.dom, d) && d <= LeapDays(m);
      assert IsLeap(4);
      var y :| IsLeap(y);
      PossibleDateMatches(c, loc, m, d, y);
    }
  }
}
