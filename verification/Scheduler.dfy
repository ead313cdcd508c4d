/** backend/internal/scheduler: the schedule table, one tick of the runner, and whole runs of ticks. */
module Scheduler {
  import opened Basics
  import opened Wrappers
  import opened Calendar
  import opened CronParse
  import opened CronNext

  /** A row of the schedules table. Instants are nanoseconds from the zero time. */
  datatype Schedule = Schedule(id: string, pipelineId: string, cronExpr: string, timezone: string,
                               lastRunAt: Option<int>, lastRunId: string, nextRunAt: int, enabled: bool)

  datatype StoreError = NotFound | EmptyId | Duplicate

  /** Zone names the host's database knows, all with fixed offsets. */
  type Zones = map<string, Location>

  /** Schedule.LoadLocation: UTC when the name is empty or unknown. */
  function LoadLocation(zones: Zones, timezone: string): Location {
    if timezone == "" || timezone !in zones then UTC else zones[timezone]
  }

  predicate Due(row: Schedule, now: int) { row.enabled && row.nextRunAt <= now }

  // ------------------------------------------------------------------ MemoryStore

  class MemoryStore {
    var schedules: map<string, Schedule>

    ghost predicate Valid()
      reads this
    {
      forall id | id in schedules :: schedules[id].id == id
    }

    constructor ()
      ensures Valid() && schedules == map[]
    {
      schedules := map[];
    }

    method Create(s: Schedule) returns (r: Option<StoreError>)
      requires Valid()
      modifies this
      ensures Valid()
      ensures r == if s.id == "" then Some(EmptyId) else if s.id in old(schedules) then Some(Duplicate) else None
      ensures schedules == if r.None? then old(schedules)[s.id := s] else old(schedules)
    {
      if s.id == "" {
        return Some(EmptyId);
      }
      if s.id in schedules {
        return Some(Duplicate);
      }
      schedules := schedules[s.id := s];
      return None;
    }

    method Update(s: Schedule) returns (r: Option<StoreError>)
      requires Valid()
      modifies this
      ensures Valid()
      ensures r == if s.id in old(schedules) then None else Some(NotFound)
      ensures schedules == if r.None? then old(schedules)[s.id := s] else old(schedules)
    {
      if s.id !in schedules {
        return Some(NotFound);
      }
      schedules := schedules[s.id := s];
      return None;
    }

    /** The rows that are due, each once, in no particular order. */
    method DueBefore(cutoff: int) returns (out: seq<Schedule>)
      requires Valid()
      ensures forall i | 0 <= i < |out| ::
                out[i].id in schedules && schedules[out[i].id] == out[i] && Due(out[i], cutoff)
      ensures forall id | id in schedules && Due(schedules[id], cutoff) :: schedules[id] in out
      ensures forall i, j | 0 <= i < j < |out| :: out[i].id != out[j].id
    {
      out := [];
      var rest := schedules.Keys;
      while rest != {}
        invariant rest <= schedules.Keys
        invariant forall i | 0 <= i < |out| :: out[i].id in schedules.Keys - rest
                                               && schedules[out[i].id] == out[i] && Due(out[i], cutoff)
        invariant forall id | id in schedules.Keys - rest && Due(schedules[id], cutoff) :: schedules[id] in out
        invariant forall i, j | 0 <= i < j < |out| :: out[i].id != out[j].id
        decreases rest
      {
        var id :| id in rest;
        rest := rest - {id};
        if schedules[id].enabled && !(schedules[id].nextRunAt > cutoff) {
          out := out + [schedules[id]];
        }
      }
    }

    method MarkFired(id: string, firedAt: int, runId: string, nextRunAt: int) returns (r: Option<StoreError>)
      requires Valid()
      modifies this
      ensures Valid()
      ensures r == if id in old(schedules) then None else Some(NotFound)
      ensures schedules == if r.None? then old(schedules)[id := Fired(old(schedules)[id], firedAt, runId, nextRunAt)]
                           else old(schedules)
    {
      if id !in schedules {
        return Some(NotFound);
      }
      schedules := schedules[id := schedules[id].(lastRunAt := Some(firedAt), lastRunId := runId,
                                                  nextRunAt := nextRunAt)];
      return None;
    }
  }

  function Fired(row: Schedule, at: int, runId: string, next: int): Schedule {
    row.(lastRunAt := Some(at), lastRunId := runId, nextRunAt := next)
  }

  // ------------------------------------------------------------- one row, one tick

  /** What the world does to one row during a tick: whether enqueueing works, whether the final
      store write works, and the run id drawn for it. */
  datatype Outcome = Outcome(enqueueOk: bool, storeOk: bool, runId: string)

  /** What firing a due row may do to it, and whether a run is enqueued. */
  ghost predicate FireRow(zones: Zones, now: Time, o: Outcome, row: Schedule, row': Schedule, enqueued: bool) {
    match ParseResult(row.cronExpr)
    case Err(_) => !enqueued && row' == if o.storeOk then row.(enabled := false) else row
    case Ok(c) =>
      if !o.enqueueOk then !enqueued && row' == row
      else
        && enqueued
        && exists next :: IsNext(c, now, LoadLocation(zones, row.timezone), next)
                          && row' == if next.Some? && o.storeOk then Fired(row, now.ns, o.runId, next.value.ns) else row
  }

  /** readOk: the store answers the query for due rows. Otherwise the tick does nothing. */
  ghost predicate TickRow(zones: Zones, now: Time, readOk: bool, o: Outcome, row: Schedule, row': Schedule,
                          enqueued: bool)
  {
    if readOk && Due(row, now.ns) then FireRow(zones, now, o, row, row', enqueued) else row' == row && !enqueued
  }

  /** A zone known by name is read from the database; the empty name and unknown ones stand for UTC. */
  ghost predicate HasOffset(zones: Zones, timezone: string, offset: int) {
    if timezone != "" && timezone in zones then zones[timezone].offset == offset else offset == 0
  }

  /** What firing a row with expression c means, by the clock of its zone: the row records the fire and waits for the
      least match after now, or stays as it was when none is within four years or a write fails. */
  lemma FireMovesOn(zones: Zones, now: Time, o: Outcome, row: Schedule, row': Schedule, enqueued: bool, c: Cron,
                    offset: int)
    requires FireRow(zones, now, o, row, row', enqueued)
    requires ParseResult(row.cronExpr) == Ok(c) && HasOffset(zones, row.timezone, offset)
    ensures enqueued <==> o.enqueueOk
    ensures !enqueued || !o.storeOk || NoneBetween(c, Location(offset), now.ns, AddYears(now, 4)) ==> row' == row
    ensures enqueued && o.storeOk && !NoneBetween(c, Location(offset), now.ns, AddYears(now, 4)) ==>
              && IsLeastAfter(c, Location(offset), now.ns, row'.nextRunAt) && row'.nextRunAt < AddYears(now, 4)
              && row'.lastRunAt == Some(now.ns) && row'.lastRunId == o.runId
              && row' == row.(lastRunAt := row'.lastRunAt, lastRunId := row'.lastRunId, nextRunAt := row'.nextRunAt)
  {
    hide ParseResult, NoneBetween, AddYears, Matches;
    assert LoadLocation(zones, row.timezone) == Location(offset);
    if enqueued && o.storeOk {
      var next :| IsNext(c, now, Location(offset), next)
                  && row' == if next.Some? then Fired(row, now.ns, o.runId, next.value.ns) else row;
      if next.Some? && NoneBetween(c, Location(offset), now.ns, AddYears(now, 4)) {
        NextUnique(c, now, Location(offset), next, None);
      }
    }
  }

  /** A row with a bad expression is disabled as soon as the store can write it, and nothing is enqueued. */
  lemma BadRowIsDisabled(zones: Zones, now: Time, o: Outcome, row: Schedule, row': Schedule, enqueued: bool)
    requires FireRow(zones, now, o, row, row', enqueued) && ParseResult(row.cronExpr).Err?
    ensures !enqueued && row' == row.(enabled := row.enabled && !o.storeOk)
  {
  }

  /** Only an enabled row whose time has come does anything in a tick. */
  lemma OnlyDueRowsFire(zones: Zones, now: Time, readOk: bool, o: Outcome, row: Schedule, row': Schedule,
                        enqueued: bool)
    requires TickRow(zones, now, readOk, o, row, row', enqueued)
    ensures enqueued || row' != row ==> row.enabled && row.nextRunAt <= now.ns
  {
    hide ParseResult, IsNext;
  }

  // ------------------------------------------------------------------------ Runner

  class Runner {
    const store: MemoryStore
    const zones: Zones
    /** The pipeline-run jobs handed to the job queue: pipeline id and run id. */
    var enqueued: seq<(string, string)>

    constructor (store: MemoryStore, zones: Zones)
      ensures this.store == store && this.zones == zones && enqueued == []
    {
      this.store := store;
      this.zones := zones;
      enqueued := [];
    }

    method Fire(s: Schedule, now: Time, o: Outcome) returns (fired: bool)
      requires store.Valid() && s.id in store.schedules && store.schedules[s.id] == s
      modifies this, store
      ensures store.Valid() && store.schedules.Keys == old(store.schedules.Keys)
      ensures FireRow(zones, now, o, s, store.schedules[s.id], fired)
      ensures forall id | id in store.schedules && id != s.id :: store.schedules[id] == old(store.schedules[id])
      ensures enqueued == if fired then old(enqueued) + [(s.pipelineId, o.runId)] else old(enqueued)
    {
      hide ParseResult, IsNext, LoadLocation;
      var parsed := Parse(s.cronExpr);
      if parsed.Err? {
        if o.storeOk {
          var _ := store.Update(s.(enabled := false));
        }
        return false;
      }
      if !o.enqueueOk {
        return false;
      }
      enqueued := enqueued + [(s.pipelineId, o.runId)];
      var next := Next(parsed.value, now, Some(LoadLocation(zones, s.timezone)));
      if next.Some? && o.storeOk {
        var _ := store.MarkFired(s.id, now.ns, o.runId, next.value.ns);
      }
      return true;
    }

    /** The loop of tick over the due rows. */
    method FireAll(due: seq<Schedule>, now: Time, outcomes: string -> Outcome) returns (fired: seq<string>)
      requires store.Valid()
      requires forall i | 0 <= i < |due| :: due[i].id in store.schedules && store.schedules[due[i].id] == due[i]
      requires forall i, j | 0 <= i < j < |due| :: due[i].id != due[j].id
      modifies this, store
      ensures store.Valid() && store.schedules.Keys == old(store.schedules.Keys)
      ensures forall i | 0 <= i < |due| ::
                FireRow(zones, now, outcomes(due[i].id), due[i], store.schedules[due[i].id], due[i].id in fired)
      ensures forall id | id in store.schedules && !HasId(due, id) ::
                store.schedules[id] == old(store.schedules)[id] && id !in fired
      ensures Distinct(fired) && forall id | id in fired :: id in store.schedules
      ensures enqueued == old(enqueued) + Jobs(fired, old(store.schedules), outcomes)
    {
      hide FiredSoFar, FireRow, Jobs;
      fired := [];
      ghost var before := store.schedules;
      JobsAndDistinct([], "", before, outcomes);
      NothingFired(zones, now, outcomes, due, before);
      var i := 0;
      while i < |due|
        invariant 0 <= i <= |due| && store.Valid()
        invariant FiredSoFar(zones, now, outcomes, due, i, before, store.schedules, fired)
        invariant enqueued == old(enqueued) + Jobs(fired, before, outcomes)
      {
        var s := due[i];
        ghost var rows := store.schedules;
        NextToFire(zones, now, outcomes, due, i, before, rows, fired);
        var enq := Fire(s, now, outcomes(s.id));
        FiredOne(zones, now, outcomes, due, i, before, rows, fired, store.schedules, enq);
        if enq {
          JobsAndDistinct(fired, s.id, before, outcomes);
          fired := fired + [s.id];
        }
        i := i + 1;
      }
      AllFired(zones, now, outcomes, due, before, store.schedules, fired);
    }

    /** One tick: every due row is fired once, every other row is left alone, whatever the order. When the
        query for due rows fails, nothing happens. */
    method Tick(now: Time, readOk: bool, outcomes: string -> Outcome) returns (fired: seq<string>)
      requires store.Valid()
      modifies this, store
      ensures store.Valid() && store.schedules.Keys == old(store.schedules.Keys)
      ensures forall id | id in store.schedules ::
                TickRow(zones, now, readOk, outcomes(id), old(store.schedules)[id], store.schedules[id], id in fired)
      ensures Distinct(fired) && forall id | id in fired :: id in store.schedules
      ensures enqueued == old(enqueued) + Jobs(fired, old(store.schedules), outcomes)
    {
      hide FireRow, Due, Jobs, Distinct;
      fired := [];
      JobsAndDistinct([], "", store.schedules, outcomes);
      if !readOk {
        return;
      }
      var due := store.DueBefore(now.ns);
      fired := FireAll(due, now, outcomes);
    }
  }

  /** The first i due rows have been fired, the others are as before. */
  ghost predicate FiredSoFar(zones: Zones, now: Time, outcomes: string -> Outcome, due: seq<Schedule>, i: int,
                             before: map<string, Schedule>, rows: map<string, Schedule>, fired: seq<string>) {
    && 0 <= i <= |due| && rows.Keys == before.Keys && Distinct(fired) && (forall id | id in fired :: id in before)
    && (forall k | 0 <= k < i :: due[k].id in rows
                                 && FireRow(zones, now, outcomes(due[k].id), due[k], rows[due[k].id],
                                            due[k].id in fired))
    && forall id | id in before && !HasId(due[..i], id) :: rows[id] == before[id] && id !in fired
  }

  lemma NothingFired(zones: Zones, now: Time, outcomes: string -> Outcome, due: seq<Schedule>,
                     before: map<string, Schedule>)
    ensures FiredSoFar(zones, now, outcomes, due, 0, before, before, [])
  {
  }

  lemma NextToFire(zones: Zones, now: Time, outcomes: string -> Outcome, due: seq<Schedule>, i: nat,
                   before: map<string, Schedule>, rows: map<string, Schedule>, fired: seq<string>)
    requires FiredSoFar(zones, now, outcomes, due, i, before, rows, fired) && i < |due|
    requires due[i].id in before && before[due[i].id] == due[i]
    requires forall j, k | 0 <= j < k < |due| :: due[j].id != due[k].id
    ensures rows.Keys == before.Keys && due[i].id in rows && rows[due[i].id] == due[i] && due[i].id !in fired
  {
    hide FireRow, HasId;
    HasIdSnoc(due, i, due[i].id);
  }

  lemma FiredOne(zones: Zones, now: Time, outcomes: string -> Outcome, due: seq<Schedule>, i: nat,
                 before: map<string, Schedule>, rows: map<string, Schedule>, fired: seq<string>,
                 rows': map<string, Schedule>, enq: bool)
    requires FiredSoFar(zones, now, outcomes, due, i, before, rows, fired) && i < |due|
    requires due[i].id in before && due[i].id !in fired && rows'.Keys == before.Keys
    requires forall j, k | 0 <= j < k < |due| :: due[j].id != due[k].id
    requires FireRow(zones, now, outcomes(due[i].id), due[i], rows'[due[i].id], enq)
    requires forall id | id in rows && id != due[i].id :: rows'[id] == rows[id]
    ensures FiredSoFar(zones, now, outcomes, due, i + 1, before, rows', if enq then fired + [due[i].id] else fired)
  {
    hide FireRow, HasId, Distinct;
    var fired' := if enq then fired + [due[i].id] else fired;
    DistinctMore(fired, due[i].id);
    assert forall id :: id in fired' <==> id in fired || (enq && id == due[i].id);
    forall k | 0 <= k < i + 1
      ensures due[k].id in rows'
              && FireRow(zones, now, outcomes(due[k].id), due[k], rows'[due[k].id], due[k].id in fired')
    {
      if k < i {
        assert due[k].id != due[i].id;
      }
    }
    forall id | id in before && !HasId(due[..i + 1], id) ensures rows'[id] == before[id] && id !in fired' {
      HasIdSnoc(due, i, id);
    }
  }

  lemma DistinctMore(ids: seq<string>, id: string)
    ensures Distinct(ids) && id !in ids ==> Distinct(ids + [id])
  {
  }

  lemma AllFired(zones: Zones, now: Time, outcomes: string -> Outcome, due: seq<Schedule>,
                 before: map<string, Schedule>, rows: map<string, Schedule>, fired: seq<string>)
    requires FiredSoFar(zones, now, outcomes, due, |due|, before, rows, fired)
    ensures rows.Keys == before.Keys && Distinct(fired) && forall id | id in fired :: id in rows
    ensures forall i | 0 <= i < |due| ::
              due[i].id in rows && FireRow(zones, now, outcomes(due[i].id), due[i], rows[due[i].id], due[i].id in fired)
    ensures forall id | id in rows && !HasId(due, id) :: rows[id] == before[id] && id !in fired
  {
    assert due[..|due|] == due;
  }

  predicate HasId(rows: seq<Schedule>, id: string) { exists i | 0 <= i < |rows| :: rows[i].id == id }

  /** The jobs that the rows named by ids enqueue. */
  ghost function Jobs(ids: seq<string>, rows: map<string, Schedule>, outcomes: string -> Outcome): seq<(string, string)>
  {
    if ids == [] then []
    else
      var last := ids[|ids| - 1];
      Jobs(ids[..|ids| - 1], rows, outcomes)
      + (if last in rows then [(rows[last].pipelineId, outcomes(last).runId)] else [])
  }

  /** Job k is that of the k-th fired row: its pipeline, and the run id drawn for it. */
  lemma {:induction false} JobsAt(ids: seq<string>, rows: map<string, Schedule>, outcomes: string -> Outcome)
    requires forall id | id in ids :: id in rows
    ensures |Jobs(ids, rows, outcomes)| == |ids|
    ensures forall k | 0 <= k < |ids| ::
              Jobs(ids, rows, outcomes)[k] == (rows[ids[k]].pipelineId, outcomes(ids[k]).runId)
  {
    if ids != [] {
      JobsAt(ids[..|ids| - 1], rows, outcomes);
    }
  }

  lemma HasIdSnoc(rows: seq<Schedule>, i: nat, id: string)
    requires i < |rows| && forall j, k | 0 <= j < k < |rows| :: rows[j].id != rows[k].id
    ensures HasId(rows[..i + 1], id) <==> HasId(rows[..i], id) || rows[i].id == id
    ensures !HasId(rows[..i], rows[i].id)
  {
    if HasId(rows[..i], id) {
      var k :| 0 <= k < i && rows[k].id == id;
      assert rows[..i + 1][k].id == id;
    }
    if rows[i].id == id {
      assert rows[..i + 1][i].id == id;
    }
  }

  lemma JobsAndDistinct(ids: seq<string>, id: string, rows: map<string, Schedule>, outcomes: string -> Outcome)
    ensures Distinct([]) && Jobs([], rows, outcomes) == []
    ensures Distinct(ids) && id !in ids ==> Distinct(ids + [id])
    ensures id in rows
            ==> Jobs(ids + [id], rows, outcomes)
                == Jobs(ids, rows, outcomes) + [(rows[id].pipelineId, outcomes(id).runId)]
  {
    assert (ids + [id])[..|ids|] == ids;
  }
}
