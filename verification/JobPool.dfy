/** backend/internal/jobqueue/worker.go: workers that claim, dispatch and report, and what becomes of every job. */
module JobPool {
  import opened Wrappers
  import opened JobQueue
  import opened JobProtocol
  import JobMemory
  import JobPostgres

  /** What the worker tells the store when the handler has returned nil (None) or an error. */
  function ReportOp(worker: string, id: string, outcome: Option<string>, nextRunAt: int): Op {
    if outcome.None? then Complete(worker, id) else Reschedule(worker, id, nextRunAt, outcome.value)
  }

  /** handle, after the dispatch: a recovered panic arrives here as an error. */
  method Handle(store: JobMemory.Memory, worker: string, job: Row, outcome: Option<string>, backoff: int -> int,
                now: int)
    returns (reply: Reply)
    requires store.Valid()
    modifies store.jobs.Values
    ensures store.Valid()
    ensures Step(Cores(old(store.Contents())), now, ReportOp(worker, job.id, outcome, now + backoff(job.attempts)),
                 reply, Cores(store.Contents()))
  {
    hide Step, Cores;
    if outcome.None? {
      reply := store.Complete(worker, job.id, now);
      return;
    }
    var nextRunAt := now + backoff(job.attempts);
    reply := store.Reschedule(worker, job.id, nextRunAt, outcome.value, now);
  }

  /** The same on the other store. */
  method HandleInPostgres(store: JobPostgres.Postgres, worker: string, job: Row, outcome: Option<string>,
                          backoff: int -> int, now: int) returns (reply: Reply)
    requires store.Valid()
    modifies store
    ensures store.Valid()
    ensures Step(Cores(old(store.rows)), now, ReportOp(worker, job.id, outcome, now + backoff(job.attempts)), reply,
                 Cores(store.rows))
  {
    hide Step, Cores;
    if outcome.None? {
      reply := store.Complete(worker, job.id, now);
      return;
    }
    var nextRunAt := now + backoff(job.attempts);
    reply := store.Reschedule(worker, job.id, nextRunAt, outcome.value, now);
  }

  /** The queue, and the job each busy worker has in hand. */
  datatype Pool = Pool(q: Queue, busy: map<string, string>)

  datatype PoolEvent =
    | Claims(now: int, worker: string, kinds: seq<string>, job: Option<Row>)
    | Reports(now: int, worker: string, id: string, outcome: Option<string>, nextRunAt: int, reply: Reply)
    | Client(now: int, op: Op, reply: Reply)

  function EventOp(e: PoolEvent): Op {
    match e
    case Claims(_, w, kinds, _) => Dequeue(w, kinds)
    case Reports(_, w, id, outcome, next, _) => ReportOp(w, id, outcome, next)
    case Client(_, op, _) => op
  }

  function EventReply(e: PoolEvent): Reply {
    match e
    case Claims(_, _, _, job) => Claim(job)
    case Reports(_, _, _, _, _, reply) => reply
    case Client(_, _, reply) => reply
  }

  /** One step of the pool: an idle worker polls, a busy worker reports on the job it has in hand,
      or a client enqueues or sweeps. */
  ghost predicate PoolStep(p: Pool, e: PoolEvent, p': Pool) {
    && Step(p.q, e.now, EventOp(e), EventReply(e), p'.q)
    && match e
       case Claims(_, w, _, job) =>
         w != "" && w !in p.busy && p'.busy == if job.Some? then p.busy[w := job.value.id] else p.busy
       case Reports(_, w, id, _, _, _) => w in p.busy && p.busy[w] == id && p'.busy == p.busy - {w}
       case Client(_, op, _) => (op.Enqueue? || op.DeleteOlderThan?) && p'.busy == p.busy
  }

  /** Each busy worker owns the job it has in hand, and each running job is in its owner's hand. */
  ghost predicate Leased(p: Pool) {
    && (forall w | w in p.busy :: p.busy[w] in p.q && p.q[p.busy[w]].status == Running && p.q[p.busy[w]].lockedBy == w)
    && forall id | id in p.q && p.q[id].status == Running ::
       p.q[id].lockedBy in p.busy && p.busy[p.q[id].lockedBy] == id
  }

  ghost predicate PoolOk(p: Pool) { Inv(p.q) && Leased(p) }

  lemma EventIsSigned(p: Pool, e: PoolEvent, p': Pool)
    requires PoolStep(p, e, p')
    ensures Signed(EventOp(e))
  {
  }

  /** Reports never fail: the store always finds the worker's own lease. */
  lemma ReportsAreAccepted(p: Pool, e: PoolEvent, p': Pool)
    requires Leased(p) && PoolStep(p, e, p') && e.Reports?
    ensures e.reply == Done
  {
  }

  lemma ClaimKeepsLeases(p: Pool, e: PoolEvent, p': Pool)
    requires Leased(p) && PoolStep(p, e, p') && e.Claims?
    ensures Leased(p')
  {
    hide Runnable;
    ClaimTakesPending(p.q, e.now, EventOp(e), EventReply(e), p'.q);
  }

  /** Ending one lease. */
  lemma EndLease(p: Pool, p': Pool, w: string, id: string)
    requires Leased(p) && w in p.busy && p.busy[w] == id
    requires id in p'.q && p'.q[id].status != Running && p'.q == p.q[id := p'.q[id]] && p'.busy == p.busy - {w}
    ensures Leased(p')
  {
  }

  lemma ReportKeepsLeases(p: Pool, e: PoolEvent, p': Pool)
    requires Leased(p) && PoolStep(p, e, p') && e.Reports?
    ensures Leased(p')
  {
    ReportsAreAccepted(p, e, p');
    assert p'.q == p.q[e.id := p'.q[e.id]] && p'.q[e.id].status != Running;
    assert p'.busy == p.busy - {e.worker} && p.busy[e.worker] == e.id;
    hide PoolStep, Step, Leased;
    EndLease(p, p', e.worker, e.id);
  }

  /** Leases depend on the running jobs only. */
  lemma SameRunning(p: Pool, p': Pool)
    requires Leased(p) && p'.busy == p.busy
    requires forall id :: (id in p.q && p.q[id].status == Running) <==> (id in p'.q && p'.q[id].status == Running)
    requires forall id | id in p.q && p.q[id].status == Running :: p'.q[id] == p.q[id]
    ensures Leased(p')
  {
  }

  lemma ClientKeepsRunning(q: Queue, now: int, op: Op, reply: Reply, q': Queue, id: string)
    requires Step(q, now, op, reply, q') && (op.Enqueue? || op.DeleteOlderThan?)
    ensures (id in q && q[id].status == Running) <==> (id in q' && q'[id].status == Running)
    ensures id in q && q[id].status == Running ==> q'[id] == q[id]
  {
  }

  lemma ClientKeepsLeases(p: Pool, e: PoolEvent, p': Pool)
    requires Leased(p) && PoolStep(p, e, p') && e.Client?
    ensures Leased(p')
  {
    hide Step, Leased;
    forall id
      ensures (id in p.q && p.q[id].status == Running) <==> (id in p'.q && p'.q[id].status == Running)
      ensures id in p.q && p.q[id].status == Running ==> p'.q[id] == p.q[id]
    {
      ClientKeepsRunning(p.q, e.now, e.op, e.reply, p'.q, id);
    }
    SameRunning(p, p');
  }

  lemma StepKeepsLeases(p: Pool, e: PoolEvent, p': Pool)
    requires Leased(p) && PoolStep(p, e, p')
    ensures Leased(p')
  {
    hide Leased, PoolStep;
    match e
    case Claims(_, _, _, _) => ClaimKeepsLeases(p, e, p');
    case Reports(_, _, _, _, _, _) => ReportKeepsLeases(p, e, p');
    case Client(_, _, _) => ClientKeepsLeases(p, e, p');
  }

  lemma StepKeepsPool(p: Pool, e: PoolEvent, p': Pool)
    requires PoolOk(p) && PoolStep(p, e, p')
    ensures PoolOk(p')
  {
    EventIsSigned(p, e, p');
    StepKeepsLeases(p, e, p');
    hide Inv, Step, Leased;
    StepKeepsInv(p.q, e.now, EventOp(e), EventReply(e), p'.q);
  }

  ghost predicate PoolRun(ps: seq<Pool>, events: seq<PoolEvent>) {
    && |ps| == |events| + 1 && ps[0] == Pool(map[], map[])
    && forall i | 0 <= i < |events| :: PoolStep(ps[i], events[i], ps[i + 1])
  }

  lemma {:induction false} PoolStaysOk(ps: seq<Pool>, events: seq<PoolEvent>, i: nat)
    requires PoolRun(ps, events) && i <= |events|
    ensures PoolOk(ps[i])
  {
    hide PoolStep;
    if i > 0 {
      hide PoolOk;
      PoolStaysOk(ps, events, i - 1);
      StepKeepsPool(ps[i - 1], events[i - 1], ps[i]);
    }
  }

  /** Two busy workers never handle the same job, nor two jobs with the same concurrency key. */
  lemma OneHandlerPerKey(ps: seq<Pool>, events: seq<PoolEvent>, i: nat, w: string, v: string)
    requires PoolRun(ps, events) && i <= |events|
    requires w in ps[i].busy && v in ps[i].busy && w != v
    ensures ps[i].busy[w] != ps[i].busy[v]
    ensures ps[i].busy[w] in ps[i].q && ps[i].busy[v] in ps[i].q
    ensures var q := ps[i].q; var key := q[ps[i].busy[w]].concurrencyKey;
            key == "" || key != q[ps[i].busy[v]].concurrencyKey
  {
    hide PoolStep;
    PoolStaysOk(ps, events, i);
  }

  // ----------------------------------------------------------------- what becomes of a job

  /** What happened to id since it was last enqueued. */
  datatype Ledger = Ledger(dispatches: nat, nils: nat, errors: nat)

  function Booked(l: Ledger, e: PoolEvent, id: string): Ledger {
    match e
    case Claims(_, _, _, job) => if job.Some? && job.value.id == id then l.(dispatches := l.dispatches + 1) else l
    case Reports(_, _, k, outcome, _, _) =>
      if k != id then l else if outcome.None? then l.(nils := l.nils + 1) else l.(errors := l.errors + 1)
    case Client(_, op, reply) => if op.Enqueue? && reply.Created? && op.id == id then Ledger(0, 0, 0) else l
  }

  ghost function LedgerOf(events: seq<PoolEvent>, id: string, i: nat): Ledger
    requires i <= |events|
  {
    if i == 0 then Ledger(0, 0, 0)
    else
      Booked(LedgerOf(events, id, i - 1), events[i - 1], id)
  }

  ghost predicate Balanced(r: Row, l: Ledger) {
    && l.dispatches == r.attempts
    && l.nils == (if r.status == Succeeded then 1 else 0)
    && l.errors == r.attempts - (if r.status == Running || r.status == Succeeded then 1 else 0)
    && (r.status == Failed ==> r.attempts == r.maxAttempts)
  }

  lemma StepBalances(p: Pool, e: PoolEvent, p': Pool, id: string, l: Ledger)
    requires PoolOk(p) && PoolStep(p, e, p') && id in p'.q && (id in p.q ==> Balanced(p.q[id], l))
    ensures Balanced(p'.q[id], Booked(l, e, id))
  {
    assert id in p.q ==> RowOk(id, p.q[id]);
    if id !in p.q {
      NewIsBalanced(p, e, p', id, l);
    } else if About(EventOp(e), EventReply(e), id) {
      assert Leased(p);
      hide Balanced, Inv, Leased, PoolStep;
      match e
      case Claims(_, _, _, _) => ClaimBalances(p, e, p', id, l);
      case Reports(_, _, _, _, _, _) => ReportBalances(p, e, p', id, l);
      case Client(_, _, _) => ClientReports(p, e, p', id);
    } else {
      StepChanges(p.q, e.now, EventOp(e), EventReply(e), p'.q, id);
      NotBooked(p, e, p', id, l);
    }
  }

  lemma NewIsBalanced(p: Pool, e: PoolEvent, p': Pool, id: string, l: Ledger)
    requires PoolStep(p, e, p') && id in p'.q && id !in p.q
    ensures Balanced(p'.q[id], Booked(l, e, id))
  {
    hide Runnable;
    ClaimTakesPending(p.q, e.now, EventOp(e), EventReply(e), p'.q);
  }

  lemma ClaimBalances(p: Pool, e: PoolEvent, p': Pool, id: string, l: Ledger)
    requires PoolStep(p, e, p') && e.Claims? && id in p.q && id in p'.q && Balanced(p.q[id], l) && RowOk(id, p.q[id])
    requires About(EventOp(e), EventReply(e), id)
    ensures Balanced(p'.q[id], Booked(l, e, id))
  {
    hide Runnable;
    ClaimTakesPending(p.q, e.now, EventOp(e), EventReply(e), p'.q);
  }

  lemma ReportBalances(p: Pool, e: PoolEvent, p': Pool, id: string, l: Ledger)
    requires PoolStep(p, e, p') && e.Reports? && id in p.q && id in p'.q && Balanced(p.q[id], l) && RowOk(id, p.q[id])
    requires About(EventOp(e), EventReply(e), id)
    ensures Balanced(p'.q[id], Booked(l, e, id))
  {
  }

  lemma ClientReports(p: Pool, e: PoolEvent, p': Pool, id: string)
    requires PoolStep(p, e, p') && e.Client?
    ensures !About(EventOp(e), EventReply(e), id)
  {
    hide Step;
  }

  lemma NotBooked(p: Pool, e: PoolEvent, p': Pool, id: string, l: Ledger)
    requires Leased(p) && PoolStep(p, e, p') && id in p.q && !About(EventOp(e), EventReply(e), id)
    ensures Booked(l, e, id) == l
  {
    hide Runnable;
    if e.Reports? {
      ReportsAreAccepted(p, e, p');
    }
  }

  /** Whatever the interleaving: a job is dispatched once per counted attempt, so at most MaxAttempts times;
      it has succeeded exactly when a dispatch returned nil; it has failed only when every allowed
      attempt returned an error; and a job no worker has in hand is pending or finished. */
  lemma {:induction false} OutcomeOfJobs(ps: seq<Pool>, events: seq<PoolEvent>, id: string, i: nat)
    requires PoolRun(ps, events) && i <= |events| && id in ps[i].q
    ensures var r, l := ps[i].q[id], LedgerOf(events, id, i);
            && Balanced(r, l) && l.dispatches <= r.maxAttempts
            && (r.status == Succeeded <==> l.nils > 0)
            && (r.status == Failed <==> l.errors == r.maxAttempts)
            && ((forall w | w in ps[i].busy :: ps[i].busy[w] != id) ==> r.status == Pending || IsTerminal(r.status))
  {
    PoolStaysOk(ps, events, i);
    hide PoolStep;
    Balances(ps, events, id, i);
    assert RowOk(id, ps[i].q[id]);
  }

  lemma {:induction false} Balances(ps: seq<Pool>, events: seq<PoolEvent>, id: string, i: nat)
    requires PoolRun(ps, events) && i <= |events| && id in ps[i].q
    ensures Balanced(ps[i].q[id], LedgerOf(events, id, i))
  {
    hide PoolStep, PoolOk, Balanced;
    if i > 0 {
      PoolStaysOk(ps, events, i - 1);
      if id in ps[i - 1].q {
        Balances(ps, events, id, i - 1);
      }
      StepBalances(ps[i - 1], events[i - 1], ps[i], id, LedgerOf(events, id, i - 1));
    }
  }
}
