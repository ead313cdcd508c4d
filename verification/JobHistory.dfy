/** What every field of a job says about the run that led to it. */
module JobHistory {
  import opened Wrappers
  import opened JobQueue
  import opened JobProtocol
  import opened JobPool

  // ------------------------------------------------------------------- events about a job

  predicate Enqueues(e: PoolEvent, id: string) { e.Client? && e.op.Enqueue? && e.reply.Created? && e.op.id == id }

  predicate Takes(e: PoolEvent, id: string) { e.Claims? && e.job.Some? && e.job.value.id == id }

  predicate Answers(e: PoolEvent, id: string) { e.Reports? && e.id == id }

  /** A handler's error. */
  predicate Errs(e: PoolEvent, id: string) { Answers(e, id) && e.outcome.Some? }

  /** The last event before step i that enqueued id. */
  ghost function LastEnqueue(events: seq<PoolEvent>, id: string, i: nat): (j: int)
    requires i <= |events|
    ensures -1 <= j < i && (0 <= j ==> Enqueues(events[j], id)) && forall k | j < k < i :: !Enqueues(events[k], id)
  {
    if i == 0 then -1 else if Enqueues(events[i - 1], id) then i - 1 else LastEnqueue(events, id, i - 1)
  }

  /** The last event that said when id is due: its enqueueing, or an error report. */
  ghost function LastPlan(events: seq<PoolEvent>, id: string, i: nat): (j: int)
    requires i <= |events|
    ensures -1 <= j < i && (0 <= j ==> Enqueues(events[j], id) || Errs(events[j], id))
    ensures forall k | j < k < i :: !Enqueues(events[k], id) && !Errs(events[k], id)
  {
    if i == 0 then -1
    else if Enqueues(events[i - 1], id) || Errs(events[i - 1], id) then i - 1
    else LastPlan(events, id, i - 1)
  }

  /** The last event that enqueued, claimed or reported on id. */
  ghost function LastTouch(events: seq<PoolEvent>, id: string, i: nat): (j: int)
    requires i <= |events|
    ensures -1 <= j < i
    ensures 0 <= j ==> Enqueues(events[j], id) || Takes(events[j], id) || Answers(events[j], id)
    ensures forall k | j < k < i :: !Enqueues(events[k], id) && !Takes(events[k], id) && !Answers(events[k], id)
  {
    if i == 0 then -1
    else if Enqueues(events[i - 1], id) || Takes(events[i - 1], id) || Answers(events[i - 1], id) then i - 1
    else LastTouch(events, id, i - 1)
  }

  /** The instant an event plans a job for. */
  function PlannedAt(e: PoolEvent): int
    requires e.Reports? || (e.Client? && e.op.Enqueue?)
  {
    if e.Reports? then e.nextRunAt else if e.op.runAt.Some? then e.op.runAt.value else e.now
  }

  // ----------------------------------------------------------------------------- laws

  /** What is given at enqueueing, with the defaults, stays. */
  ghost predicate AsEnqueued(r: Row, e: PoolEvent)
    requires e.Client? && e.op.Enqueue?
  {
    && r.id == e.op.id && r.kind == e.op.kind && r.concurrencyKey == e.op.key && r.createdAt == e.now
    && r.payload == (if e.op.payload.Some? then e.op.payload.value else "{}")
    && r.maxAttempts == (if 1 <= e.op.maxAttempts then e.op.maxAttempts else 1)
  }

  /** A job that still has to run is due at the instant planned last, and carries the last error. */
  ghost predicate AsPlanned(r: Row, e: PoolEvent)
    requires e.Reports? || (e.Client? && e.op.Enqueue?)
  {
    && (r.status == Pending || r.status == Running ==> r.runAt == PlannedAt(e))
    && r.lastError == if e.Reports? && e.outcome.Some? then e.outcome.value else ""
  }

  /** The stamps are those of the last event about the job. */
  ghost predicate AsTouched(r: Row, e: PoolEvent) {
    && r.updatedAt == e.now
    && (IsTerminal(r.status) ==> e.Reports? && r.finishedAt == Some(e.now))
    && (r.status == Running ==> e.Claims?)
  }

  ghost predicate Told(r: Row, events: seq<PoolEvent>, id: string, i: nat)
    requires i <= |events|
  {
    && 0 <= LastEnqueue(events, id, i) && AsEnqueued(r, events[LastEnqueue(events, id, i)])
    && 0 <= LastPlan(events, id, i) && AsPlanned(r, events[LastPlan(events, id, i)])
    && 0 <= LastTouch(events, id, i) && AsTouched(r, events[LastTouch(events, id, i)])
  }

  lemma Created(p: Pool, e: PoolEvent, p': Pool, id: string)
    requires PoolStep(p, e, p') && id !in p.q && id in p'.q
    ensures Enqueues(e, id) && AsEnqueued(p'.q[id], e) && AsPlanned(p'.q[id], e) && AsTouched(p'.q[id], e)
  {
    hide Runnable;
    ClaimTakesPending(p.q, e.now, EventOp(e), EventReply(e), p'.q);
  }

  lemma NotEnqueued(p: Pool, e: PoolEvent, p': Pool, id: string)
    requires PoolStep(p, e, p') && id in p.q
    ensures !Enqueues(e, id)
  {
  }

  lemma Taken(p: Pool, e: PoolEvent, p': Pool, id: string)
    requires PoolStep(p, e, p') && Takes(e, id)
    ensures id in p.q && p.q[id].status == Pending && id in p'.q
    ensures var r, r' := p.q[id], p'.q[id];
            r' == r.(status := Running, attempts := r.attempts + 1, lockedBy := e.worker, lockedAt := None,
                     startedAt := None, updatedAt := e.now)
  {
    assert Runnable(p.q, e.kinds, e.now, id);
    hide Runnable;
  }

  ghost predicate EnqueuedAlike(r: Row, r': Row) {
    && r'.id == r.id && r'.kind == r.kind && r'.concurrencyKey == r.concurrencyKey && r'.createdAt == r.createdAt
    && r'.payload == r.payload && r'.maxAttempts == r.maxAttempts
  }

  ghost predicate Answer(r: Row, r': Row, e: PoolEvent)
    requires e.Reports?
  {
    && EnqueuedAlike(r, r') && r'.updatedAt == e.now && r'.status != Running
    && r'.lastError == (if e.outcome.Some? then e.outcome.value else r.lastError)
    && (r'.status == Pending ==> e.outcome.Some? && r'.runAt == e.nextRunAt)
    && (IsTerminal(r'.status) ==> r'.finishedAt == Some(e.now))
  }

  lemma NilAnswer(r: Row, e: PoolEvent)
    requires e.Reports? && e.outcome.None?
    ensures Answer(r, Core(Completed(r, e.now)), e)
  {
  }

  lemma ErrorAnswer(r: Row, e: PoolEvent)
    requires e.Reports? && e.outcome.Some?
    ensures Answer(r, Core(Rescheduled(r, e.nextRunAt, e.outcome.value, e.now)), e)
  {
  }

  lemma Answered(p: Pool, e: PoolEvent, p': Pool, id: string)
    requires Leased(p) && PoolStep(p, e, p') && Answers(e, id)
    ensures id in p.q && p.q[id].status == Running && id in p'.q && Answer(p.q[id], p'.q[id], e)
  {
    hide Answer, Core, Completed, Rescheduled;
    ReportsAreAccepted(p, e, p');
    if e.outcome.None? {
      NilAnswer(p.q[id], e);
    } else {
      ErrorAnswer(p.q[id], e);
    }
  }

  lemma NotTouched(p: Pool, e: PoolEvent, p': Pool, id: string)
    requires Leased(p) && PoolStep(p, e, p') && id in p.q && id in p'.q && !Takes(e, id) && !Answers(e, id)
    ensures p'.q[id] == p.q[id]
  {
    hide Step, Leased, Runnable;
    StepChanges(p.q, e.now, EventOp(e), EventReply(e), p'.q, id);
  }

  lemma StepTells(p: Pool, p': Pool, events: seq<PoolEvent>, id: string, i: nat)
    requires i < |events| && Leased(p) && PoolStep(p, events[i], p') && id in p.q && id in p'.q
    requires Told(p.q[id], events, id, i)
    ensures Told(p'.q[id], events, id, i + 1)
  {
    var e := events[i];
    NotEnqueued(p, e, p', id);
    if Takes(e, id) {
      Taken(p, e, p', id);
    } else if Answers(e, id) {
      Answered(p, e, p', id);
    } else {
      NotTouched(p, e, p', id);
    }
    hide PoolStep, Leased;
  }

  /** In every run of workers and clients: a job has the kind, payload, key, budget and creation time it was enqueued
      with; until it has finished it is due at the instant planned last, by its enqueueing or by an error report; it
      carries the last error; and its stamps are those of the last event about it. */
  lemma {:induction false} RowTellsItsStory(ps: seq<Pool>, events: seq<PoolEvent>, id: string, i: nat)
    requires PoolRun(ps, events) && i <= |events| && id in ps[i].q
    ensures Told(ps[i].q[id], events, id, i)
  {
    hide PoolStep, PoolOk, Told;
    if i > 0 {
      PoolStaysOk(ps, events, i - 1);
      assert Leased(ps[i - 1]) by {
        OkIsLeased(ps[i - 1]);
      }
      assert PoolStep(ps[i - 1], events[i - 1], ps[i]);
      if id in ps[i - 1].q {
        RowTellsItsStory(ps, events, id, i - 1);
        StepTells(ps[i - 1], ps[i], events, id, i - 1);
      } else {
        Created(ps[i - 1], events[i - 1], ps[i], id);
        FirstTold(ps[i].q[id], events, id, i);
      }
    }
  }

  lemma OkIsLeased(p: Pool)
    requires PoolOk(p)
    ensures Leased(p)
  {
  }

  lemma FirstTold(r: Row, events: seq<PoolEvent>, id: string, i: nat)
    requires 0 < i <= |events| && Enqueues(events[i - 1], id)
    requires AsEnqueued(r, events[i - 1]) && AsPlanned(r, events[i - 1]) && AsTouched(r, events[i - 1])
    ensures Told(r, events, id, i)
  {
  }

  /** No job is claimed before it is due: not before the instant given with the last error report on it, nor, without
      such a report, before the instant it was enqueued for. */
  lemma NeverClaimedEarly(ps: seq<Pool>, events: seq<PoolEvent>, id: string, i: nat)
    requires PoolRun(ps, events) && i < |events| && Takes(events[i], id)
    ensures 0 <= LastPlan(events, id, i) && PlannedAt(events[LastPlan(events, id, i)]) <= events[i].now
  {
    hide PoolStep;
    assert PoolStep(ps[i], events[i], ps[i + 1]);
    Taken(ps[i], events[i], ps[i + 1], id);
    ClaimedWhenDue(ps[i], events[i], ps[i + 1], id);
    RowTellsItsStory(ps, events, id, i);
  }

  lemma ClaimedWhenDue(p: Pool, e: PoolEvent, p': Pool, id: string)
    requires PoolStep(p, e, p') && Takes(e, id) && id in p.q
    ensures p.q[id].runAt <= e.now
  {
    assert Runnable(p.q, e.kinds, e.now, id);
  }

  /** May be claimed at now by a worker for these kinds: pending and due, of a wanted kind, and its key free. */
  ghost predicate Open(q: Queue, kinds: seq<string>, now: int, id: string) {
    && id in q && q[id].status == Pending && q[id].runAt <= now && (kinds == [] || q[id].kind in kinds)
    && (q[id].concurrencyKey == ""
        || forall k | k in q && q[k].status == Running :: q[k].concurrencyKey != q[id].concurrencyKey)
  }

  lemma OpenIff(q: Queue, kinds: seq<string>, now: int, id: string)
    ensures Open(q, kinds, now, id) <==> Runnable(q, kinds, now, id)
  {
  }

  /** A poll takes the job that is due earliest among those open to it, and comes back empty only when there is none. */
  lemma ClaimsEarliest(p: Pool, e: PoolEvent, p': Pool)
    requires PoolStep(p, e, p') && e.Claims?
    ensures e.job.None? ==> p' == p && forall k :: !Open(p.q, e.kinds, e.now, k)
    ensures e.job.Some? ==>
              var id := e.job.value.id;
              && Open(p.q, e.kinds, e.now, id)
              && (forall k | Open(p.q, e.kinds, e.now, k) :: p.q[id].runAt <= p.q[k].runAt)
              && id in p'.q && p'.q[id].status == Running && p'.q[id].lockedBy == e.worker
  {
    forall k ensures Open(p.q, e.kinds, e.now, k) <==> Runnable(p.q, e.kinds, e.now, k) {
      OpenIff(p.q, e.kinds, e.now, k);
    }
    hide Open, Runnable;
  }

  /** A report is accepted exactly from the worker that holds the running job; otherwise nothing changes, and the answer
      tells a missing job from one that is not the worker's. */
  lemma RefusedIff(q: Queue, now: int, op: Op, reply: Reply, q': Queue)
    requires (op.Complete? || op.Fail? || op.Reschedule?) && Step(q, now, op, reply, q')
    ensures reply == Done <==> op.id in q && q[op.id].status == Running && q[op.id].lockedBy == op.worker
    ensures reply == NotFound <==> op.id !in q
    ensures reply != Done ==> q' == q && (reply == NotFound || reply == NotLocked)
  {
  }

  /** A sweep deletes a finished job exactly when the report that finished it came before the cutoff. */
  lemma SweptIff(ps: seq<Pool>, events: seq<PoolEvent>, id: string, i: nat)
    requires PoolRun(ps, events) && i < |events| && id in ps[i].q
    requires events[i].Client? && events[i].op.DeleteOlderThan?
    ensures 0 <= LastTouch(events, id, i)
    ensures IsTerminal(ps[i].q[id].status) ==> events[LastTouch(events, id, i)].Reports?
    ensures id !in ps[i + 1].q <==>
              IsTerminal(ps[i].q[id].status) && events[LastTouch(events, id, i)].now < events[i].op.cutoff
  {
    assert PoolStep(ps[i], events[i], ps[i + 1]);
    hide PoolStep, Expired;
    SweptStep(ps[i], events[i], ps[i + 1], id);
    RowTellsItsStory(ps, events, id, i);
    ExpiredIff(ps[i].q[id], events[LastTouch(events, id, i)], events[i].op.cutoff) by {
      hide AsEnqueued, AsPlanned;
    }
  }

  lemma SweptStep(p: Pool, e: PoolEvent, p': Pool, id: string)
    requires PoolStep(p, e, p') && e.Client? && e.op.DeleteOlderThan? && id in p.q
    ensures id !in p'.q <==> Expired(p.q[id], e.op.cutoff)
  {
    hide Expired;
  }

  lemma ExpiredIff(r: Row, e: PoolEvent, cutoff: int)
    requires AsTouched(r, e)
    ensures Expired(r, cutoff) <==> IsTerminal(r.status) && e.now < cutoff
    ensures IsTerminal(r.status) ==> e.Reports?
  {
  }
}
