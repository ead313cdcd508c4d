/** backend/internal/scheduler/scheduler.go:138-173: the leader's loop over ticks, and what it means for each row. */
module SchedulerLoop {
  import opened Wrappers
  import opened Calendar
  import opened CronParse
  import opened CronFailure
  import opened Scheduler
  import opened SchedulerRuns
  import opened SchedulerGaps

  /** One tick: the clock reading, whether the query for due rows works, and what the world does to each row. */
  datatype Tick = Tick(now: Time, readOk: bool, outcomes: string -> Outcome)

  /** tables[i] is the schedule table before tick i; fired[i] names the rows that tick i enqueued. */
  ghost predicate TableRun(zones: Zones, tables: seq<map<string, Schedule>>, ticks: seq<Tick>, fired: seq<seq<string>>)
  {
    && |tables| == |ticks| + 1 && |fired| == |ticks|
    && forall i | 0 <= i < |ticks| :: TableTick(zones, tables[i], ticks[i], fired[i], tables[i + 1])
  }

  ghost predicate TableTick(zones: Zones, table: map<string, Schedule>, t: Tick, fired: seq<string>,
                            table': map<string, Schedule>)
  {
    && table'.Keys == table.Keys
    && forall id | id in table :: TickRow(zones, t.now, t.readOk, t.outcomes(id), table[id], table'[id], id in fired)
  }

  /** leadLoop for as long as the leader's connection answers: one tick at once, then one per interval. */
  method LeadLoop(runner: Runner, ticks: seq<Tick>)
    returns (fired: seq<seq<string>>, ghost tables: seq<map<string, Schedule>>)
    requires runner.store.Valid()
    modifies runner, runner.store
    ensures runner.store.Valid()
    ensures TableRun(runner.zones, tables, ticks, fired)
    ensures tables[0] == old(runner.store.schedules) && tables[|ticks|] == runner.store.schedules
  {
    hide TickRow;
    fired, tables := [], [runner.store.schedules];
    var i := 0;
    while i < |ticks|
      invariant 0 <= i <= |ticks| && runner.store.Valid()
      invariant TableRun(runner.zones, tables, ticks[..i], fired)
      invariant tables[0] == old(runner.store.schedules) && tables[i] == runner.store.schedules
    {
      var ids := runner.Tick(ticks[i].now, ticks[i].readOk, ticks[i].outcomes);
      assert TableTick(runner.zones, tables[i], ticks[i], ids, runner.store.schedules);
      assert ticks[..i + 1] == ticks[..i] + [ticks[i]];
      RunSnoc(runner.zones, tables, ticks[..i], fired, ticks[i], ids, runner.store.schedules);
      fired, tables := fired + [ids], tables + [runner.store.schedules];
      i := i + 1;
    }
    assert ticks[..i] == ticks;
  }

  lemma RunSnoc(zones: Zones, tables: seq<map<string, Schedule>>, ticks: seq<Tick>, fired: seq<seq<string>>,
                t: Tick, ids: seq<string>, table: map<string, Schedule>)
    requires TableRun(zones, tables, ticks, fired) && TableTick(zones, tables[|ticks|], t, ids, table)
    ensures TableRun(zones, tables + [table], ticks + [t], fired + [ids])
  {
    hide TableTick;
  }

  // -------------------------------------------------------------------- one row of a run

  ghost function Events(ticks: seq<Tick>, id: string): (es: seq<Event>)
    ensures |es| == |ticks|
    ensures forall i | 0 <= i < |ticks| :: es[i] == Event(ticks[i].now, ticks[i].readOk, ticks[i].outcomes(id))
  {
    if ticks == [] then [] else [Event(ticks[0].now, ticks[0].readOk, ticks[0].outcomes(id))] + Events(ticks[1..], id)
  }

  ghost function FiredAt(fired: seq<seq<string>>, id: string): (f: seq<bool>)
    ensures |f| == |fired| && forall i | 0 <= i < |fired| :: f[i] == (id in fired[i])
  {
    if fired == [] then [] else [id in fired[0]] + FiredAt(fired[1..], id)
  }

  ghost function RowOf(tables: seq<map<string, Schedule>>, id: string): (rows: seq<Schedule>)
    requires forall m | m in tables :: id in m
    ensures |rows| == |tables| && forall i | 0 <= i < |tables| :: rows[i] == tables[i][id]
  {
    if tables == [] then [] else [tables[0][id]] + RowOf(tables[1..], id)
  }

  lemma {:induction false} RowStays(zones: Zones, tables: seq<map<string, Schedule>>, ticks: seq<Tick>,
                                    fired: seq<seq<string>>, id: string, i: nat)
    requires TableRun(zones, tables, ticks, fired) && id in tables[0] && i <= |ticks|
    ensures id in tables[i]
  {
    hide TickRow;
    if i > 0 {
      RowStays(zones, tables, ticks, fired, id, i - 1);
      assert TableTick(zones, tables[i - 1], ticks[i - 1], fired[i - 1], tables[i]);
    }
  }

  /** Seen from one row, the loop is a run of the kind SchedulerRuns reasons about. */
  lemma RowRuns(zones: Zones, tables: seq<map<string, Schedule>>, ticks: seq<Tick>, fired: seq<seq<string>>, id: string)
    requires TableRun(zones, tables, ticks, fired) && id in tables[0]
    ensures forall m | m in tables :: id in m
    ensures Run(zones, RowOf(tables, id), Events(ticks, id), FiredAt(fired, id))
  {
    hide TickRow;
    forall m | m in tables ensures id in m {
      var i :| 0 <= i < |tables| && tables[i] == m;
      RowStays(zones, tables, ticks, fired, id, i);
    }
    forall i | 0 <= i < |ticks|
      ensures TickRow(zones, ticks[i].now, ticks[i].readOk, ticks[i].outcomes(id), tables[i][id], tables[i + 1][id],
                      id in fired[i])
    {
      RowStays(zones, tables, ticks, fired, id, i);
      assert TableTick(zones, tables[i], ticks[i], fired[i], tables[i + 1]);
    }
  }

  /** The leader's guarantee: without failures, tick i enqueues a waiting schedule exactly when a minute
      matching its expression has passed since it was last fired. */
  lemma LoopFiresOnMatches(zones: Zones, tables: seq<map<string, Schedule>>, ticks: seq<Tick>, fired: seq<seq<string>>,
                           id: string, c: Cron, loc: Location, t0: int, i: nat)
    requires TableRun(zones, tables, ticks, fired) && id in tables[0] && i < |ticks|
    requires Waiting(zones, tables[0][id], c, loc, t0) && !OnlyRareDates(c) && NoFailures(Events(ticks, id))
    ensures id in fired[i] <==> MatchIn(c, loc, LastFire(Events(ticks, id), FiredAt(fired, id), t0, i), ticks[i].now.ns)
  {
    hide TickRow, Waiting, OnlyRareDates, MatchIn, LastFire;
    RowRuns(zones, tables, ticks, fired, id);
    FiresExactlyOnMatches(zones, RowOf(tables, id), Events(ticks, id), FiredAt(fired, id), c, loc, t0, i);
  }

  ghost predicate GoodLoop(zones: Zones, tables: seq<map<string, Schedule>>, ticks: seq<Tick>, fired: seq<seq<string>>,
                           id: string, c: Cron, loc: Location, t0: int) {
    && TableRun(zones, tables, ticks, fired) && id in tables[0] && Waiting(zones, tables[0][id], c, loc, t0)
    && NoFailures(Events(ticks, id)) && Timely(Events(ticks, id))
  }

  /** Every failure-free loop is punctual at every tick, for every schedule with the expression c in zone loc. */
  ghost predicate LoopAlwaysPunctual(zones: Zones, c: Cron, loc: Location) {
    forall tables, ticks, fired, id, t0, i: nat
      | GoodLoop(zones, tables, ticks, fired, id, c, loc, t0) && i < |ticks| ::
      Punctual(c, loc, Events(ticks, id), FiredAt(fired, id), t0, i)
  }

  /** The same exact condition for the whole loop: the expression is not one of rare but possible dates. */
  lemma LoopPunctualIff(zones: Zones, expr: string, timezone: string)
    requires ParseResult(expr).Ok?
    ensures var c := ParseResult(expr).value;
            LoopAlwaysPunctual(zones, c, LoadLocation(zones, timezone)) <==> !OnlyRareDates(c) || OnlyImpossibleDates(c)
  {
    var c, loc := ParseResult(expr).value, LoadLocation(zones, timezone);
    AlwaysPunctualIff(zones, expr, timezone);
    hide ParseResult, LoadLocation, OnlyRareDates, OnlyImpossibleDates, TickRow, Waiting, Punctual;
    if !OnlyRareDates(c) || OnlyImpossibleDates(c) {
      forall tables, ticks, fired, id, t0, i: nat | GoodLoop(zones, tables, ticks, fired, id, c, loc, t0) && i < |ticks|
        ensures Punctual(c, loc, Events(ticks, id), FiredAt(fired, id), t0, i)
      {
        RowRuns(zones, tables, ticks, fired, id);
        assert GoodRun(zones, RowOf(tables, id), Events(ticks, id), FiredAt(fired, id), c, loc, t0);
      }
    } else {
      UnpunctualLoop(zones, expr, timezone, c, loc);
    }
  }

  /** A table with one row of rare dates has an unpunctual loop. */
  lemma UnpunctualLoop(zones: Zones, expr: string, timezone: string, c: Cron, loc: Location)
    requires ParseResult(expr) == Ok(c) && LoadLocation(zones, timezone) == loc
    requires OnlyRareDates(c) && !OnlyImpossibleDates(c)
    ensures !LoopAlwaysPunctual(zones, c, loc)
  {
    hide ParseResult, LoadLocation, OnlyRareDates, OnlyImpossibleDates, TickRow, Waiting, Punctual, NoFailures;
    var rows, events, marks, t0 := UnpunctualRun(zones, expr, timezone, c, loc);
    FirstTick(zones, rows, events, marks);
    var tables, ticks, fired := LoopOfRow(zones, rows[0], events[0]);
    hide TableRun, Timely, LastFire, Run, LoopAlwaysPunctual, GoodLoop;
    assert Events(ticks, rows[0].id) == events && FiredAt(fired, rows[0].id) == marks;
    RowIsGood(zones, tables, ticks, fired, rows, marks, c, loc, t0);
    OneCounterexample(zones, tables, ticks, fired, rows[0].id, c, loc, t0, 1);
  }

  lemma RowIsGood(zones: Zones, tables: seq<map<string, Schedule>>, ticks: seq<Tick>, fired: seq<seq<string>>,
                  rows: seq<Schedule>, marks: seq<bool>, c: Cron, loc: Location, t0: int)
    requires 0 < |rows| && TableRun(zones, tables, ticks, fired) && rows[0].id in tables[0]
             && tables[0][rows[0].id] == rows[0]
    requires GoodRun(zones, rows, Events(ticks, rows[0].id), marks, c, loc, t0)
    ensures GoodLoop(zones, tables, ticks, fired, rows[0].id, c, loc, t0)
  {
    hide TableTick, Waiting, TickRow;
  }

  lemma OneCounterexample(zones: Zones, tables: seq<map<string, Schedule>>, ticks: seq<Tick>, fired: seq<seq<string>>,
                          id: string, c: Cron, loc: Location, t0: int, i: nat)
    requires GoodLoop(zones, tables, ticks, fired, id, c, loc, t0) && i < |ticks|
    requires !Punctual(c, loc, Events(ticks, id), FiredAt(fired, id), t0, i)
    ensures !LoopAlwaysPunctual(zones, c, loc)
  {
    hide GoodLoop, Punctual;
  }

  lemma FirstTick(zones: Zones, rows: seq<Schedule>, events: seq<Event>, fired: seq<bool>)
    requires Run(zones, rows, events, fired) && 0 < |events|
    ensures TickRow(zones, events[0].now, events[0].readOk, events[0].outcome, rows[0], rows[1], fired[0])
  {
  }

  /** A table of one row that enqueues and stays as it is, at two ticks alike. */
  lemma LoopOfRow(zones: Zones, row: Schedule, e: Event)
    returns (tables: seq<map<string, Schedule>>, ticks: seq<Tick>, fired: seq<seq<string>>)
    requires TickRow(zones, e.now, e.readOk, e.outcome, row, row, true)
    ensures TableRun(zones, tables, ticks, fired) && row.id in tables[0] && tables[0][row.id] == row && |ticks| == 2
    ensures Events(ticks, row.id) == [e, e] && FiredAt(fired, row.id) == [true, true]
  {
    hide TickRow;
    var tick := Tick(e.now, e.readOk, _ => e.outcome);
    var table := map[row.id := row];
    tables, ticks, fired := [table, table, table], [tick, tick], [[row.id], [row.id]];
    assert TableTick(zones, table, tick, [row.id], table);
  }
}
