/** From which instants Cron.Next fails, exactly, for an expression that selects 29 February and no other date. */
module CronGaps {
  import opened Calendar
  import opened CronParse
  import opened CronNext
  import opened CronFailure

  // ----------------------------------------------------------- the matching minutes of a day

  ghost function LeastFrom(m: Mask, v: int, max: int): (least: int)
    requires exists w :: v <= w <= max && Bit(m, w)
    ensures v <= least <= max && Bit(m, least) && forall w | v <= w < least :: !Bit(m, w)
    decreases max - v
  {
    if Bit(m, v) then v else LeastFrom(m, v + 1, max)
  }

  ghost function GreatestTo(m: Mask, min: int, v: int): (greatest: int)
    requires exists w :: min <= w <= v && Bit(m, w)
    ensures min <= greatest <= v && Bit(m, greatest) && forall w | greatest < w <= v :: !Bit(m, w)
    decreases v - min
  {
    if Bit(m, v) then v else GreatestTo(m, min, v - 1)
  }

  /** The first minute of a day at which c fires, and the last. */
  ghost function FirstMinute(c: Cron): int
    requires Inhabited(c)
  {
    LeastFrom(c.hour, 0, 23) * 60 + LeastFrom(c.minute, 0, 59)
  }

  ghost function LastMinute(c: Cron): int
    requires Inhabited(c)
  {
    GreatestTo(c.hour, 0, 23) * 60 + GreatestTo(c.minute, 0, 59)
  }

  lemma MinutesOfDay(c: Cron)
    requires Inhabited(c)
    ensures 0 <= FirstMinute(c) <= LastMinute(c) <= 1439
  {
    MinuteBounds(c, GreatestTo(c.hour, 0, 23), GreatestTo(c.minute, 0, 59));
  }

  lemma MinuteBounds(c: Cron, h: int, i: int)
    requires Inhabited(c) && 0 <= h <= 23 && Bit(c.hour, h) && 0 <= i <= 59 && Bit(c.minute, i)
    ensures FirstMinute(c) <= h * 60 + i <= LastMinute(c)
  {
  }

  // -------------------------------------------------------------------------- leap days

  /** Midnight of 29 February of year y in zone loc. */
  function LeapDay(y: int, loc: Location): int { Instant((MonthStart(y, 2) + 28) * 1440, loc) }

  /** The instants of the first and of the last match on that day. */
  ghost function FirstMatch(c: Cron, y: int, loc: Location): int
    requires Inhabited(c)
  {
    LeapDay(y, loc) + FirstMinute(c) * MINUTE
  }

  ghost function LastMatch(c: Cron, y: int, loc: Location): int
    requires Inhabited(c)
  {
    LeapDay(y, loc) + LastMinute(c) * MINUTE
  }

  lemma FebruaryAscends(a: int, b: int)
    requires a < b
    ensures MonthStart(a, 2) + 365 <= MonthStart(b, 2)
  {
    hide YearStart;
    YearStartMonotone(a, b);
  }

  lemma LeapDaysAscend(a: int, b: int, loc: Location)
    requires a < b
    ensures LeapDay(a, loc) + 1440 * MINUTE <= LeapDay(b, loc)
  {
    hide MonthStart;
    FebruaryAscends(a, b);
  }

  lemma LeapDayNumber(n: int)
    requires MonthOf(n) == 2 && DayOf(n) == 29
    ensures n == MonthStart(YearOf(n), 2) + 28
  {
    hide YearOf, MonthOf, MonthStart;
  }

  lemma RareDateIsLeapDay(c: Cron, n: int)
    requires OnlyRareDates(c) && Bit(c.month, MonthOf(n)) && DayMatches(c, n)
    ensures MonthOf(n) == 2 && DayOf(n) == 29 && IsLeap(YearOf(n))
  {
    hide YearOf, MonthOf, DayOf;
  }

  /** Every match lies on the 29 February of a leap year, between the first and the last minute of that day. */
  lemma MatchOnLeapDay(c: Cron, loc: Location, k: int) returns (y: int)
    requires Inhabited(c) && OnlyRareDates(c) && Matches(c, loc, k)
    ensures IsLeap(y) && FirstMatch(c, y, loc) <= k * MINUTE <= LastMatch(c, y, loc)
  {
    hide Inhabited, OnlyRareDates, FirstMinute, LastMinute, DayMatches, YearOf, MonthOf, DayOf, MonthStart, IsLeap;
    var w := k + loc.offset;
    var n := w / 1440;
    RareDateIsLeapDay(c, n);
    LeapDayNumber(n);
    y := YearOf(n);
    MinuteBounds(c, w % 1440 / 60, w % 60);
    MinuteParts(w);
    assert w == n * 1440 + w % 1440;
  }

  lemma MinuteParts(w: int)
    ensures w % 1440 == w % 1440 / 60 * 60 + w % 60
    ensures 0 <= w % 1440 / 60 <= 23
  {
    assert w % 1440 % 60 == w % 60;
  }

  lemma LeapFebruary(y: int)
    requires IsLeap(y)
    ensures MonthStart(y, 3) == MonthStart(y, 2) + 29 && DaysInMonth(y, 2) == 29
  {
    hide YearStart;
  }

  /** On the 29 February of any leap year the selected minutes match. */
  lemma LeapDayMatches(c: Cron, loc: Location, y: int, h: int, i: int)
    requires Inhabited(c) && OnlyRareDates(c) && !OnlyImpossibleDates(c) && IsLeap(y)
    requires 0 <= h <= 23 && Bit(c.hour, h) && 0 <= i <= 59 && Bit(c.minute, i)
    ensures var k := (MonthStart(y, 2) + 28) * 1440 + h * 60 + i - loc.offset;
            Matches(c, loc, k) && k * MINUTE == LeapDay(y, loc) + (h * 60 + i) * MINUTE
  {
    hide Matches, MonthStart, YearOf, MonthOf, DayOf, DayMatches, IsLeap;
    var m, d :| 1 <= m <= 12 && 1 <= d <= 31 && Bit(c.month, m) && Bit(c.dom, d) && d <= LeapDays(m);
    assert m == 2 && d == 29;
    var n := MonthStart(y, 2) + 28;
    LeapFebruary(y);
    DateRoundTrip(y, 2, 29);
    FullWeekday(c, n);
    MatchAt(c, loc, n, h, i);
  }

  lemma FirstAndLastMatch(c: Cron, loc: Location, y: int) returns (first: int, last: int)
    requires Inhabited(c) && OnlyRareDates(c) && !OnlyImpossibleDates(c) && IsLeap(y)
    ensures Matches(c, loc, first) && first * MINUTE == FirstMatch(c, y, loc)
    ensures Matches(c, loc, last) && last * MINUTE == LastMatch(c, y, loc)
  {
    hide OnlyRareDates, OnlyImpossibleDates, Matches, MonthStart, IsLeap, LeapDay;
    var h, i := LeastFrom(c.hour, 0, 23), LeastFrom(c.minute, 0, 59);
    LeapDayMatches(c, loc, y, h, i);
    first := (MonthStart(y, 2) + 28) * 1440 + h * 60 + i - loc.offset;
    h, i := GreatestTo(c.hour, 0, 23), GreatestTo(c.minute, 0, 59);
    LeapDayMatches(c, loc, y, h, i);
    last := (MonthStart(y, 2) + 28) * 1440 + h * 60 + i - loc.offset;
  }

  // ------------------------------------------------------------- consecutive leap years

  /** y' is the first leap year after the leap year y. */
  ghost predicate Consecutive(y: int, y': int) {
    IsLeap(y) && IsLeap(y') && y < y' && forall x | y < x < y' :: !IsLeap(x)
  }

  /** The next leap year comes after four years or, around most centuries, after eight. */
  lemma FollowingLeapYear(y: int)
    requires IsLeap(y)
    ensures Consecutive(y, if IsLeap(y + 4) then y + 4 else y + 8)
  {
    assert y % 4 == 0;
    hide IsLeap;
    NoLeapWithin(y);
    NoLeapWithin(y + 4);
    if !IsLeap(y + 4) {
      LeapAfterCentury(y);
    }
  }

  lemma NoLeapWithin(y: int)
    requires y % 4 == 0
    ensures forall x | y < x < y + 4 :: !IsLeap(x)
    ensures (y + 4) % 4 == 0
  {
    var a := y / 4;
    forall x | y < x < y + 4 ensures !IsLeap(x) {
      assert x == 4 * a + (x - y);
    }
  }

  lemma LeapAfterCentury(y: int)
    requires y % 4 == 0 && !IsLeap(y + 4)
    ensures IsLeap(y + 8)
  {
    var b := (y + 4) / 100;
    assert y + 8 == 100 * b + 4;
  }

  lemma LastLeapYear(x: int) returns (y: int)
    ensures y <= x && IsLeap(y) && forall z | y < z <= x :: !IsLeap(z)
  {
    y := x / 4 * 4;
    FourthYear(x / 4);
    hide IsLeap;
    NoLeapWithin(y);
    if !IsLeap(y) {
      LeapBeforeCentury(y);
      NoLeapWithin(y - 4);
      y := y - 4;
    }
  }

  lemma FourthYear(a: int)
    ensures a * 4 % 4 == 0
  {
  }

  lemma LeapBeforeCentury(y: int)
    requires y % 4 == 0 && !IsLeap(y)
    ensures IsLeap(y - 4) && (y - 4) % 4 == 0
  {
    var b := y / 100;
    assert y - 4 == 100 * (b - 1) + 96;
  }

  // --------------------------------------------------------------------------- the gaps

  /** from is not before the last match of the leap year y, and four years later the first match of the next leap
      year y' is not yet over. */
  ghost predicate InGap(c: Cron, from: Time, loc: Location, y: int, y': int) {
    && Inhabited(c) && Consecutive(y, y')
    && LastMatch(c, y, loc) <= from.ns && AddYears(from, 4) <= FirstMatch(c, y', loc)
  }

  lemma GapIsEmpty(c: Cron, loc: Location, y: int, y': int, k: int)
    requires Inhabited(c) && OnlyRareDates(c) && Consecutive(y, y') && Matches(c, loc, k)
    ensures !(LastMatch(c, y, loc) < k * MINUTE < FirstMatch(c, y', loc))
  {
    hide Inhabited, OnlyRareDates, Matches, IsLeap, LeapDay, FirstMinute, LastMinute;
    var x := MatchOnLeapDay(c, loc, k);
    MinutesOfDay(c);
    if x < y {
      LeapDaysAscend(x, y, loc);
    } else if y' < x {
      LeapDaysAscend(y', x, loc);
    }
  }

  lemma GapFails(c: Cron, from: Time, loc: Location, y: int, y': int)
    requires OnlyRareDates(c) && InGap(c, from, loc, y, y')
    ensures Fails(c, from, loc)
  {
    hide Inhabited, OnlyRareDates, Matches, FirstMatch, LastMatch, AddYears, Consecutive;
    forall k | Matches(c, loc, k) ensures !(from.ns < k * MINUTE < AddYears(from, 4)) {
      GapIsEmpty(c, loc, y, y', k);
    }
  }

  /** Upwards from a leap year whose last match is not after the instant ns, to the greatest one. */
  lemma {:induction false} LeapYearUp(c: Cron, loc: Location, ns: int, x: int) returns (y: int, y': int)
    requires Inhabited(c) && IsLeap(x) && LastMatch(c, x, loc) <= ns
    ensures Consecutive(y, y') && LastMatch(c, y, loc) <= ns < LastMatch(c, y', loc)
    decreases ns - LastMatch(c, x, loc)
  {
    hide Inhabited, LastMinute, LeapDay, IsLeap;
    FollowingLeapYear(x);
    y, y' := x, if IsLeap(x + 4) then x + 4 else x + 8;
    if LastMatch(c, y', loc) <= ns {
      LeapDaysAscend(x, y', loc);
      y, y' := LeapYearUp(c, loc, ns, y');
    }
  }

  /** Downwards from a leap year whose last match is after it. */
  lemma {:induction false} LeapYearDown(c: Cron, loc: Location, ns: int, x: int) returns (y: int, y': int)
    requires Inhabited(c) && IsLeap(x) && ns < LastMatch(c, x, loc)
    ensures Consecutive(y, y') && LastMatch(c, y, loc) <= ns < LastMatch(c, y', loc)
    decreases LastMatch(c, x, loc) - ns
  {
    hide Inhabited, LastMinute, LeapDay, IsLeap;
    y := LastLeapYear(x - 1);
    y' := x;
    if ns < LastMatch(c, y, loc) {
      LeapDaysAscend(y, x, loc);
      y, y' := LeapYearDown(c, loc, ns, y);
    }
  }

  lemma LeapYearsAround(c: Cron, loc: Location, ns: int) returns (y: int, y': int)
    requires Inhabited(c)
    ensures Consecutive(y, y') && LastMatch(c, y, loc) <= ns < LastMatch(c, y', loc)
  {
    hide Inhabited, LastMatch, Consecutive;
    var x := LastLeapYear(2000);
    if LastMatch(c, x, loc) <= ns {
      y, y' := LeapYearUp(c, loc, ns, x);
    } else {
      y, y' := LeapYearDown(c, loc, ns, x);
    }
  }

  /** Next fails exactly in the gaps: from the last match of a leap year's 29 February on, as long as the first match
      of the next one is four years away or more. */
  lemma FailsIff(c: Cron, from: Time, loc: Location)
    requires Inhabited(c) && OnlyRareDates(c) && !OnlyImpossibleDates(c)
    ensures Fails(c, from, loc) <==> exists y, y' :: InGap(c, from, loc, y, y')
  {
    hide Inhabited, OnlyRareDates, OnlyImpossibleDates, Matches, LeapDay, FirstMinute, LastMinute, AddYears, IsLeap;
    if Fails(c, from, loc) {
      var y, y' := LeapYearsAround(c, loc, from.ns);
      var first, last := FirstAndLastMatch(c, loc, y');
      MinutesOfDay(c);
      DeadlineIsFar(from);
      assert InGap(c, from, loc, y, y');
    }
    forall y, y' | InGap(c, from, loc, y, y') ensures Fails(c, from, loc) {
      GapFails(c, from, loc, y, y');
    }
  }

  // --------------------------------------------------------------- two kinds of failures

  function FirstOfMarch(y: int, loc: Location): Time { Time(Instant(MonthStart(y, 3) * 1440, loc), loc) }

  lemma YearsAfterMarch(y: int, loc: Location)
    ensures AddYears(FirstOfMarch(y, loc), 4) == FirstOfMarch(y + 4, loc).ns
  {
    var n := MonthStart(y, 3);
    WallClock(n * 1440, loc);
    DateRoundTrip(y, 3, 1);
    assert DayNumber(FirstOfMarch(y, loc).ns, loc) == n;
  }

  lemma MarchAfterLeapDay(y: int)
    ensures MonthStart(y, 3) == MonthStart(y, 2) + if IsLeap(y) then 29 else 28
  {
    hide YearStart;
  }

  /** From 1 March of a leap year whose fourth successor is common, such as 2096, no match is in reach. */
  lemma LeapGap(c: Cron, loc: Location, y: int)
    requires Inhabited(c) && OnlyRareDates(c) && IsLeap(y) && !IsLeap(y + 4)
    ensures InGap(c, FirstOfMarch(y, loc), loc, y, y + 8) && Fails(c, FirstOfMarch(y, loc), loc)
  {
    hide Inhabited, OnlyRareDates, AddYears, Fails, MonthStart, IsLeap, FirstMinute, LastMinute, Consecutive;
    FollowingLeapYear(y);
    YearsAfterMarch(y, loc);
    MarchAfterLeapDay(y);
    MarchAfterLeapDay(y + 4);
    FebruaryAscends(y + 4, y + 8);
    MinutesOfDay(c);
    GapFails(c, FirstOfMarch(y, loc), loc, y, y + 8);
  }

  lemma MatchBeforeMarch(c: Cron, loc: Location, y: int) returns (k: int)
    requires Inhabited(c) && OnlyRareDates(c) && !OnlyImpossibleDates(c) && IsLeap(y)
    ensures Matches(c, loc, k) && k * MINUTE < FirstOfMarch(y, loc).ns
  {
    hide Inhabited, OnlyRareDates, OnlyImpossibleDates, Matches, MonthStart, IsLeap, FirstMinute, LastMinute;
    var last: int;
    k, last := FirstAndLastMatch(c, loc, y);
    MinutesOfDay(c);
    MarchAfterLeapDay(y);
  }

  /** Four years after a minute of 29 February. */
  lemma YearsAfterLeapDay(y: int, loc: Location, x: int)
    requires IsLeap(y) && 0 <= x < 1440
    ensures AddYears(Time(LeapDay(y, loc) + x * MINUTE, loc), 4)
            == (if IsLeap(y + 4) then LeapDay(y + 4, loc) else FirstOfMarch(y + 4, loc).ns) + x * MINUTE
  {
    hide YearOf, MonthOf, DayOf, MonthStart, IsLeap;
    var n := MonthStart(y, 2) + 28;
    LeapFebruary(y);
    DateRoundTrip(y, 2, 29);
    WallClock(n * 1440 + x, loc);
    MarchAfterLeapDay(y + 4);
    assert DayNumber(LeapDay(y, loc) + x * MINUTE, loc) == n;
  }

  lemma MarchBeforeLeapDay(y: int, loc: Location)
    ensures FirstOfMarch(y, loc).ns + 1440 * MINUTE <= LeapDay(y + 4, loc)
  {
    hide MonthStart;
    MarchAfterLeapDay(y);
    FebruaryAscends(y, y + 4);
  }

  /** A tick at exactly the last match of 29 February. With the next leap day eight years away the search fails. With
      four years it fails exactly when c fires once a day: the search excludes its own deadline. */
  lemma LastMatchFailsIff(c: Cron, loc: Location, y: int)
    requires Inhabited(c) && OnlyRareDates(c) && !OnlyImpossibleDates(c) && IsLeap(y)
    ensures Fails(c, Time(LastMatch(c, y, loc), loc), loc) <==> !IsLeap(y + 4) || FirstMinute(c) == LastMinute(c)
  {
    hide Inhabited, OnlyRareDates, OnlyImpossibleDates, Matches, LeapDay, FirstMinute, LastMinute, AddYears, IsLeap;
    var from := Time(LastMatch(c, y, loc), loc);
    MinutesOfDay(c);
    YearsAfterLeapDay(y, loc, LastMinute(c));
    FollowingLeapYear(y);
    if IsLeap(y + 4) {
      if FirstMinute(c) == LastMinute(c) {
        GapFails(c, from, loc, y, y + 4);
      } else {
        var first, last := FirstAndLastMatch(c, loc, y + 4);
        LeapDaysAscend(y, y + 4, loc);
      }
    } else {
      MarchBeforeLeapDay(y + 4, loc);
      GapFails(c, from, loc, y, y + 8);
    }
  }

  /** Next can fail at some instant exactly when the expression selects only rare dates. */
  lemma SometimesFails(c: Cron, loc: Location)
    requires Inhabited(c)
    ensures (exists from: Time :: Fails(c, from, loc)) <==> OnlyRareDates(c)
  {
    hide Fails, Inhabited, OnlyRareDates;
    if OnlyRareDates(c) {
      var y := SomeGapYear();
      LeapGap(c, loc, y);
    } else {
      forall from: Time ensures !Fails(c, from, loc) {
        NeverFails(c, from, loc);
      }
    }
  }

  lemma SomeGapYear() returns (y: int)
    ensures IsLeap(y) && !IsLeap(y + 4)
  {
    y := 2096;
  }
}
