/** Whole runs of the scheduler, seen from one row: when it fires, and that nothing due is dropped. */
module SchedulerRuns {
  import opened Wrappers
  import opened Calendar
  import opened CronParse
  import opened CronNext
  import opened CronFailure
  import opened Scheduler

  datatype Event = Event(now: Time, readOk: bool, outcome: Outcome)

  /** rows[i] is the row before tick i, rows[i + 1] after it; fired[i] says whether tick i enqueued a run. */
  ghost predicate Run(zones: Zones, rows: seq<Schedule>, events: seq<Event>, fired: seq<bool>) {
    && |rows| == |events| + 1 && |fired| == |events|
    && forall i | 0 <= i < |events| ::
         TickRow(zones, events[i].now, events[i].readOk, events[i].outcome, rows[i], rows[i + 1], fired[i])
  }

  /** The instant of the last fire before tick i whose new due time was stored, or t0. */
  ghost function LastStored(c: Cron, loc: Location, events: seq<Event>, fired: seq<bool>, t0: int, i: nat): int
    requires i <= |events| == |fired|
  {
    if i == 0 then t0
    else if fired[i - 1] && events[i - 1].outcome.storeOk && !Fails(c, events[i - 1].now, loc)
    then events[i - 1].now.ns
    else LastStored(c, loc, events, fired, t0, i - 1)
  }

  /** The row is enabled, its expression parses to c, it is read in loc, and it waits for the first
      matching minute after t. */
  ghost predicate Waiting(zones: Zones, row: Schedule, c: Cron, loc: Location, t: int) {
    && row.enabled && ParseResult(row.cronExpr) == Ok(c) && LoadLocation(zones, row.timezone) == loc
    && IsLeastAfter(c, loc, t, row.nextRunAt)
  }

  /** nextRunFromSchedule, as schedules are created and edited: the row then waits for the first match after now. */
  method NextRunFromSchedule(zones: Zones, row: Schedule, now: Time) returns (r: Option<Time>)
    ensures r.None? <==> ParseResult(row.cronExpr).Err?
                         || Fails(ParseResult(row.cronExpr).value, now, LoadLocation(zones, row.timezone))
    ensures r.Some? ==> Waiting(zones, row.(nextRunAt := r.value.ns, enabled := true), ParseResult(row.cronExpr).value,
                                LoadLocation(zones, row.timezone), now.ns)
    ensures r.Some? ==> forall offset | HasOffset(zones, row.timezone, offset) ::
              IsLeastAfter(ParseResult(row.cronExpr).value, Location(offset), now.ns, r.value.ns)
  {
    hide ParseResult, IsLeastAfter;
    var parsed := Parse(row.cronExpr);
    if parsed.Err? {
      return None;
    }
    r := Next(parsed.value, now, Some(LoadLocation(zones, row.timezone)));
    if r.Some? && Fails(parsed.value, now, LoadLocation(zones, row.timezone)) {
      NextUnique(parsed.value, now, LoadLocation(zones, row.timezone), r, None);
    }
  }

  lemma TickKeepsWaiting(zones: Zones, e: Event, row: Schedule, row': Schedule, fired: bool, c: Cron, loc: Location,
                         t: int)
    requires Waiting(zones, row, c, loc, t) && TickRow(zones, e.now, e.readOk, e.outcome, row, row', fired)
    ensures fired <==> row.nextRunAt <= e.now.ns && e.readOk && e.outcome.enqueueOk
    ensures Waiting(zones, row', c, loc, if fired && e.outcome.storeOk && !Fails(c, e.now, loc) then e.now.ns else t)
  {
    hide ParseResult, LoadLocation, IsLeastAfter;
    if e.readOk && Due(row, e.now.ns) && e.outcome.enqueueOk {
      var next :| IsNext(c, e.now, loc, next)
                  && row' == if next.Some? && e.outcome.storeOk
                             then Fired(row, e.now.ns, e.outcome.runId, next.value.ns) else row;
      if next.None? {
        assert Fails(c, e.now, loc);
      } else if Fails(c, e.now, loc) {
        NextUnique(c, e.now, loc, next, None);
      }
    }
  }

  lemma {:induction false} WaitingThroughout(zones: Zones, rows: seq<Schedule>, events: seq<Event>, fired: seq<bool>,
                                             c: Cron, loc: Location, t0: int, i: nat)
    requires Run(zones, rows, events, fired) && i <= |events|
    requires Waiting(zones, rows[0], c, loc, t0)
    ensures Waiting(zones, rows[i], c, loc, LastStored(c, loc, events, fired, t0, i))
  {
    hide Waiting, TickRow, Fails;
    if i > 0 {
      WaitingThroughout(zones, rows, events, fired, c, loc, t0, i - 1);
      TickKeepsWaiting(zones, events[i - 1], rows[i - 1], rows[i], fired[i - 1], c, loc,
                       LastStored(c, loc, events, fired, t0, i - 1));
    }
  }

  /** Some whole minute in (a, b] matches. */
  ghost predicate MatchIn(c: Cron, loc: Location, a: int, b: int) {
    exists k :: Matches(c, loc, k) && a < k * MINUTE <= b
  }

  lemma MatchInGrows(c: Cron, loc: Location, a: int, b: int, b': int)
    requires MatchIn(c, loc, a, b) && b <= b'
    ensures MatchIn(c, loc, a, b')
  {
  }

  lemma DueIffMatch(c: Cron, loc: Location, t: int, next: int, now: int)
    requires IsLeastAfter(c, loc, t, next)
    ensures next <= now <==> MatchIn(c, loc, t, now)
  {
    if next <= now {
      assert next / MINUTE * MINUTE == next;
      assert Matches(c, loc, next / MINUTE);
    }
  }

  /** Every run, every failure pattern: tick i enqueues exactly when a matching minute has passed since the
      last stored fire and the query for due rows and the enqueueing work. So occurrences missed together
      cost one run, and a schedule whose query, enqueue, next-time search or store write failed stays due. */
  lemma FiresIffMatched(zones: Zones, rows: seq<Schedule>, events: seq<Event>, fired: seq<bool>,
                        c: Cron, loc: Location, t0: int, i: nat)
    requires Run(zones, rows, events, fired) && i < |events|
    requires Waiting(zones, rows[0], c, loc, t0)
    ensures var since := LastStored(c, loc, events, fired, t0, i);
            fired[i] <==> MatchIn(c, loc, since, events[i].now.ns) && events[i].readOk && events[i].outcome.enqueueOk
  {
    hide Matches;
    var since := LastStored(c, loc, events, fired, t0, i);
    WaitingThroughout(zones, rows, events, fired, c, loc, t0, i);
    DueIffMatch(c, loc, since, rows[i].nextRunAt, events[i].now.ns);
    TickKeepsWaiting(zones, events[i], rows[i], rows[i + 1], fired[i], c, loc, since);
  }

  ghost predicate NoFailures(events: seq<Event>) {
    forall i | 0 <= i < |events| :: events[i].readOk && events[i].outcome.enqueueOk && events[i].outcome.storeOk
  }

  /** The instant of the last fire before tick i, or t0. */
  ghost function LastFire(events: seq<Event>, fired: seq<bool>, t0: int, i: nat): int
    requires i <= |events| == |fired|
  {
    if i == 0 then t0 else if fired[i - 1] then events[i - 1].now.ns else LastFire(events, fired, t0, i - 1)
  }

  lemma {:induction false} StoredIsFired(c: Cron, loc: Location, events: seq<Event>, fired: seq<bool>, t0: int, i: nat)
    requires i <= |events| == |fired| && NoFailures(events) && forall from: Time :: !Fails(c, from, loc)
    ensures LastStored(c, loc, events, fired, t0, i) == LastFire(events, fired, t0, i)
  {
    hide Fails;
    if i > 0 {
      StoredIsFired(c, loc, events, fired, t0, i - 1);
    }
  }

  /** Without failures, for any expression that does not select rare dates only: a row last fired at t1
      fires at a tick at t2 exactly when a matching minute lies in (t1, t2]. */
  lemma FiresExactlyOnMatches(zones: Zones, rows: seq<Schedule>, events: seq<Event>, fired: seq<bool>,
                              c: Cron, loc: Location, t0: int, i: nat)
    requires Run(zones, rows, events, fired) && i < |events| && NoFailures(events)
    requires Waiting(zones, rows[0], c, loc, t0) && !OnlyRareDates(c)
    ensures fired[i] <==> MatchIn(c, loc, LastFire(events, fired, t0, i), events[i].now.ns)
  {
    hide OnlyRareDates, Fails;
    ParsedIsInhabited(rows[0].cronExpr);
    forall from: Time ensures !Fails(c, from, loc) {
      NeverFails(c, from, loc);
    }
    StoredIsFired(c, loc, events, fired, t0, i);
    FiresIffMatched(zones, rows, events, fired, c, loc, t0, i);
  }

  /** A firing instant from which Next fails leaves the row due: the next tick, if it can enqueue, does so again. */
  lemma FailedSearchRefires(zones: Zones, rows: seq<Schedule>, events: seq<Event>, fired: seq<bool>,
                            c: Cron, loc: Location, t0: int, i: nat)
    requires Run(zones, rows, events, fired) && i + 1 < |events|
    requires Waiting(zones, rows[0], c, loc, t0)
    requires fired[i] && Fails(c, events[i].now, loc)
    requires events[i].now.ns <= events[i + 1].now.ns && events[i + 1].readOk && events[i + 1].outcome.enqueueOk
    ensures fired[i + 1]
  {
    hide Waiting, Matches, Fails, TickRow, MatchIn;
    FiresIffMatched(zones, rows, events, fired, c, loc, t0, i);
    MatchInGrows(c, loc, LastStored(c, loc, events, fired, t0, i), events[i].now.ns, events[i + 1].now.ns);
    FiresIffMatched(zones, rows, events, fired, c, loc, t0, i + 1);
  }
}
