/** backend/internal/scheduler: for which expressions the scheduler fires exactly on matches. A schedule for 29 February
    fires at every tick of the gap around a century year without one. */
module SchedulerGaps {
  import opened Wrappers
  import opened Calendar
  import opened CronParse
  import opened CronNext
  import opened CronFailure
  import opened CronGaps
  import opened Scheduler
  import opened SchedulerRuns

  ghost predicate Timely(events: seq<Event>) {
    forall i, j | 0 <= i < j < |events| :: events[i].now.ns <= events[j].now.ns
  }

  /** Tick i enqueues the row exactly when a matching minute has passed since it last fired. */
  ghost predicate Punctual(c: Cron, loc: Location, events: seq<Event>, fired: seq<bool>, t0: int, i: nat)
    requires i < |events| == |fired|
  {
    fired[i] <==> MatchIn(c, loc, LastFire(events, fired, t0, i), events[i].now.ns)
  }

  ghost predicate GoodRun(zones: Zones, rows: seq<Schedule>, events: seq<Event>, fired: seq<bool>, c: Cron,
                          loc: Location, t0: int)
  {
    Run(zones, rows, events, fired) && NoFailures(events) && Timely(events) && Waiting(zones, rows[0], c, loc, t0)
  }

  /** Every failure-free run of a waiting row, at non-decreasing times, is punctual at every tick. */
  ghost predicate AlwaysPunctual(zones: Zones, c: Cron, loc: Location) {
    forall rows, events, fired, t0, i: nat | GoodRun(zones, rows, events, fired, c, loc, t0) && i < |events| ::
      Punctual(c, loc, events, fired, t0, i)
  }

  // ------------------------------------------------------------------ ticks in the gap

  lemma FailedTickKeepsRow(zones: Zones, e: Event, row: Schedule, row': Schedule, fired: bool, c: Cron, loc: Location,
                           t: int)
    requires Waiting(zones, row, c, loc, t) && TickRow(zones, e.now, e.readOk, e.outcome, row, row', fired)
    requires Fails(c, e.now, loc)
    ensures row' == row
  {
    hide IsLeastAfter, ParseResult;
    if e.readOk && Due(row, e.now.ns) && e.outcome.enqueueOk {
      var next :| IsNext(c, e.now, loc, next)
                  && row' == if next.Some? && e.outcome.storeOk
                             then Fired(row, e.now.ns, e.outcome.runId, next.value.ns) else row;
      NextUnique(c, e.now, loc, next, None);
    }
  }

  lemma {:induction false} GapKeepsRow(zones: Zones, rows: seq<Schedule>, events: seq<Event>, fired: seq<bool>,
                                       c: Cron, loc: Location, t0: int, y: int, y': int, i: nat)
    requires Run(zones, rows, events, fired) && Waiting(zones, rows[0], c, loc, t0) && OnlyRareDates(c)
    requires i <= |events| && forall k | 0 <= k < i :: InGap(c, events[k].now, loc, y, y')
    ensures rows[i] == rows[0]
  {
    hide Waiting, TickRow, OnlyRareDates, InGap, Fails;
    if i > 0 {
      GapKeepsRow(zones, rows, events, fired, c, loc, t0, y, y', i - 1);
      GapFails(c, events[i - 1].now, loc, y, y');
      FailedTickKeepsRow(zones, events[i - 1], rows[i - 1], rows[i], fired[i - 1], c, loc, t0);
    }
  }

  /** In a gap, from the first tick at which the row is due: every tick whose query and enqueueing work enqueues
      it again, and no match has passed since the tick before. */
  lemma GapTicksAllFire(zones: Zones, rows: seq<Schedule>, events: seq<Event>, fired: seq<bool>,
                        c: Cron, loc: Location, t0: int, y: int, y': int, i: nat)
    requires Run(zones, rows, events, fired) && Waiting(zones, rows[0], c, loc, t0) && OnlyRareDates(c)
    requires i < |events| && Timely(events) && rows[0].nextRunAt <= events[0].now.ns
    requires forall k | 0 <= k <= i :: InGap(c, events[k].now, loc, y, y')
    ensures fired[i] <==> events[i].readOk && events[i].outcome.enqueueOk
    ensures 0 < i ==> !MatchIn(c, loc, events[i - 1].now.ns, events[i].now.ns)
  {
    hide Waiting, TickRow, OnlyRareDates, Matches, AddYears;
    GapKeepsRow(zones, rows, events, fired, c, loc, t0, y, y', i);
    TickKeepsWaiting(zones, events[i], rows[i], rows[i + 1], fired[i], c, loc, t0);
    if 0 < i {
      AddYearsForward(events[i].now);
      forall k | Matches(c, loc, k) ensures !(events[i - 1].now.ns < k * MINUTE <= events[i].now.ns) {
        GapIsEmpty(c, loc, y, y', k);
      }
    }
  }

  // --------------------------------------------------------------- the exact condition

  lemma JustBefore(c: Cron, loc: Location, k: int)
    requires Matches(c, loc, k)
    ensures IsLeastAfter(c, loc, k * MINUTE - 1, k * MINUTE)
  {
    hide Matches;
    assert k * MINUTE % MINUTE == 0 && k * MINUTE / MINUTE == k;
  }

  /** Two ticks on 1 March of such a year: both enqueue, the second without a match. */
  lemma UnpunctualRun(zones: Zones, expr: string, timezone: string, c: Cron, loc: Location)
    returns (rows: seq<Schedule>, events: seq<Event>, fired: seq<bool>, t0: int)
    requires ParseResult(expr) == Result.Ok(c) && LoadLocation(zones, timezone) == loc
    requires OnlyRareDates(c) && !OnlyImpossibleDates(c)
    ensures |events| == 2 && events[0] == events[1] && |rows| == 3 && rows[0] == rows[1] == rows[2]
            && fired == [true, true]
    ensures GoodRun(zones, rows, events, fired, c, loc, t0) && !Punctual(c, loc, events, fired, t0, 1)
  {
    hide ParseResult, Inhabited, OnlyRareDates, OnlyImpossibleDates, InGap, FirstOfMarch, Matches, IsLeap;
    ParsedIsInhabited(expr);
    var y := SomeGapYear();
    var k := MatchBeforeMarch(c, loc, y);
    JustBefore(c, loc, k);
    t0 := k * MINUTE - 1;
    var now := FirstOfMarch(y, loc);
    LeapGap(c, loc, y);
    var row := Schedule("id", "", expr, timezone, None, "", k * MINUTE, true);
    var e := Event(now, true, Outcome(true, true, ""));
    rows, events, fired := [row, row, row], [e, e], [true, true];
    hide IsLeastAfter;
    assert Waiting(zones, row, c, loc, t0);
    DueTickFires(zones, e, row, c, loc, t0);
    hide Waiting, TickRow, LoadLocation;
    assert Run(zones, rows, events, fired);
    GapTicksAllFire(zones, rows, events, fired, c, loc, t0, y, y + 8, 1);
    assert LastFire(events, fired, t0, 1) == now.ns;
  }

  lemma DueTickFires(zones: Zones, e: Event, row: Schedule, c: Cron, loc: Location, t0: int)
    requires Waiting(zones, row, c, loc, t0) && row.nextRunAt <= e.now.ns && e.readOk && e.outcome.enqueueOk
    requires Fails(c, e.now, loc)
    ensures TickRow(zones, e.now, e.readOk, e.outcome, row, row, true)
  {
    hide ParseResult, IsLeastAfter, IsNext;
    assert IsNext(c, e.now, loc, None);
  }

  /** A parsed expression is always punctual if and only if it is not one of rare but possible dates: the weekday
      unrestricted, and 29 February the only selected date that exists. */
  lemma AlwaysPunctualIff(zones: Zones, expr: string, timezone: string)
    requires ParseResult(expr).Ok?
    ensures var c := ParseResult(expr).value;
            AlwaysPunctual(zones, c, LoadLocation(zones, timezone)) <==> !OnlyRareDates(c) || OnlyImpossibleDates(c)
  {
    var c, loc := ParseResult(expr).value, LoadLocation(zones, timezone);
    ParsedIsInhabited(expr);
    hide ParseResult, LoadLocation, Inhabited, OnlyRareDates;
    if !OnlyRareDates(c) || OnlyImpossibleDates(c) {
      forall rows, events, fired, t0, i: nat | GoodRun(zones, rows, events, fired, c, loc, t0) && i < |events|
        ensures Punctual(c, loc, events, fired, t0, i)
      {
        if OnlyImpossibleDates(c) {
          ImpossibleNeverWaits(zones, rows[0], c, loc, t0);
        } else {
          FiresExactlyOnMatches(zones, rows, events, fired, c, loc, t0, i);
        }
      }
    } else {
      var rows, events, fired, t0 := UnpunctualRun(zones, expr, timezone, c, loc);
      assert GoodRun(zones, rows, events, fired, c, loc, t0) && !Punctual(c, loc, events, fired, t0, 1);
    }
  }

  lemma ImpossibleNeverWaits(zones: Zones, row: Schedule, c: Cron, loc: Location, t0: int)
    requires OnlyImpossibleDates(c)
    ensures !Waiting(zones, row, c, loc, t0)
  {
    hide OnlyImpossibleDates, Matches, ParseResult, LoadLocation;
    ImpossibleNoMatch(c, loc, row.nextRunAt / MINUTE);
  }
}
