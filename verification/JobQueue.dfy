/** backend/internal/jobqueue/jobqueue.go: jobs, and the queue's operations as one step relation that
    both stores are measured against. */
module JobQueue {
  import opened Wrappers

  datatype Status = Pending | Running | Succeeded | Failed | Cancelled

  predicate IsTerminal(s: Status) { s == Succeeded || s == Failed || s == Cancelled }

  /** The fields of a job. Instants are nanoseconds; None is an absent timestamp. */
  datatype Row = Row(id: string, kind: string, payload: string, status: Status, attempts: int, maxAttempts: int,
                     runAt: int, lockedBy: string, lockedAt: Option<int>, startedAt: Option<int>,
                     finishedAt: Option<int>, lastError: string, concurrencyKey: string,
                     createdAt: int, updatedAt: int)

  type Queue = map<string, Row>

  /** id is the given id or the generated one. */
  datatype Op =
    | Enqueue(id: string, kind: string, payload: Option<string>, runAt: Option<int>, maxAttempts: int, key: string)
    | Dequeue(worker: string, kinds: seq<string>)
    | Complete(worker: string, id: string)
    | Fail(worker: string, id: string, error: string)
    | Reschedule(worker: string, id: string, nextRunAt: int, error: string)
    | DeleteOlderThan(cutoff: int)

  datatype Reply = Done | Created(row: Row) | Claim(job: Option<Row>) | Deleted(n: int)
                 | NotFound | NotLocked | EmptyKind | DuplicateId

  // ---------------------------------------------------------------- effects on one job

  function New(id: string, kind: string, payload: Option<string>, runAt: Option<int>, maxAttempts: int, key: string,
               now: int): Row
  {
    Row(id, kind, if payload.Some? then payload.value else "{}", Pending, 0,
        if maxAttempts <= 0 then 1 else maxAttempts,
        if runAt.Some? then runAt.value else now, "", None, None, None, "", key, now, now)
  }

  function Claimed(r: Row, worker: string, now: int): Row {
    r.(status := Running, lockedBy := worker, lockedAt := Some(now), startedAt := Some(now),
       attempts := r.attempts + 1, updatedAt := now)
  }

  function Completed(r: Row, now: int): Row {
    r.(status := Succeeded, finishedAt := Some(now), lockedBy := "", updatedAt := now)
  }

  function FailedWith(r: Row, error: string, now: int): Row {
    r.(status := Failed, finishedAt := Some(now), lastError := error, lockedBy := "", updatedAt := now)
  }

  function Rescheduled(r: Row, nextRunAt: int, error: string, now: int): Row {
    if r.attempts >= r.maxAttempts then FailedWith(r, error, now)
    else r.(status := Pending, runAt := nextRunAt, lastError := error, lockedBy := "", lockedAt := None,
            startedAt := None, updatedAt := now)
  }

  predicate Expired(r: Row, cutoff: int) {
    IsTerminal(r.status) && (if r.finishedAt.Some? then r.finishedAt.value else r.updatedAt) < cutoff
  }

  // ------------------------------------------------------------------------ picking

  ghost predicate KeyBusy(q: Queue, key: string) {
    exists id | id in q :: q[id].status == Running && q[id].concurrencyKey == key
  }

  predicate Wanted(kinds: seq<string>, kind: string) { kinds == [] || kind in kinds }

  ghost predicate Runnable(q: Queue, kinds: seq<string>, now: int, id: string) {
    && id in q && q[id].status == Pending && q[id].runAt <= now && Wanted(kinds, q[id].kind)
    && (q[id].concurrencyKey == "" || !KeyBusy(q, q[id].concurrencyKey))
  }

  /** id may be claimed: it is runnable, and nothing runnable is due earlier. */
  ghost predicate IsPick(q: Queue, kinds: seq<string>, now: int, id: string) {
    Runnable(q, kinds, now, id) && forall k | Runnable(q, kinds, now, k) :: q[id].runAt <= q[k].runAt
  }

  // ------------------------------------------------------------------ the step relation

  /** What both stores must agree on: everything but the two stamps that only describe the last claim. */
  function Core(r: Row): Row { r.(lockedAt := None, startedAt := None) }

  ghost function Cores(q: Queue): Queue { map id | id in q :: Core(q[id]) }

  function CoreReply(reply: Reply): Reply {
    if reply.Claim? && reply.job.Some? then Claim(Some(Core(reply.job.value))) else reply
  }

  function Verdict(q: Queue, worker: string, id: string): Reply {
    if id !in q then NotFound
    else if q[id].lockedBy != worker || q[id].status != Running then NotLocked
    else Done
  }

  /** What a report that changed no row answers when it looks the job up afterwards. */
  function LateVerdict(q: Queue, id: string): Reply { if id !in q then NotFound else NotLocked }

  ghost predicate ClaimStep(q: Queue, now: int, worker: string, kinds: seq<string>, picked: Option<Row>, q': Queue) {
    match picked
    case None => q' == q && forall id :: !Runnable(q, kinds, now, id)
    case Some(row) =>
      IsPick(q, kinds, now, row.id) && row == Core(Claimed(q[row.id], worker, now)) && q' == q[row.id := row]
  }

  /** One operation on the queue, seen through Core. */
  ghost predicate Step(q: Queue, now: int, op: Op, reply: Reply, q': Queue) {
    match op
    case Enqueue(id, kind, payload, runAt, maxAttempts, key) =>
      var row := New(id, kind, payload, runAt, maxAttempts, key, now);
      && reply == (if kind == "" then EmptyKind else if id in q then DuplicateId else Created(row))
      && q' == if reply.Created? then q[id := row] else q
    case Dequeue(worker, kinds) => reply.Claim? && ClaimStep(q, now, worker, kinds, reply.job, q')
    case Complete(worker, id) =>
      reply == Verdict(q, worker, id) && q' == if reply.Done? then q[id := Core(Completed(q[id], now))] else q
    case Fail(worker, id, error) =>
      reply == Verdict(q, worker, id) && q' == if reply.Done? then q[id := Core(FailedWith(q[id], error, now))] else q
    case Reschedule(worker, id, nextRunAt, error) =>
      && reply == Verdict(q, worker, id)
      && q' == if reply.Done? then q[id := Core(Rescheduled(q[id], nextRunAt, error, now))] else q
    case DeleteOlderThan(cutoff) =>
      && q' == (map id | id in q && !Expired(q[id], cutoff) :: q[id])
      && reply == Deleted(|q| - |q'|)
  }

  // ------------------------------------------------------------------- working with Core

  lemma CoresPutGet(q: Queue, id: string, row: Row)
    ensures Cores(q[id := row]) == Cores(q)[id := Core(row)]
    ensures Cores(q).Keys == q.Keys
  {
  }

  lemma RunnableCores(q: Queue, kinds: seq<string>, now: int, id: string)
    ensures Runnable(Cores(q), kinds, now, id) <==> Runnable(q, kinds, now, id)
  {
    var c := Cores(q);
    assert forall k | k in q :: c[k].status == q[k].status && c[k].concurrencyKey == q[k].concurrencyKey;
    if id in q && KeyBusy(q, q[id].concurrencyKey) {
      var k :| k in q && q[k].status == Running && q[k].concurrencyKey == q[id].concurrencyKey;
      assert k in c && c[k].status == Running;
    }
  }

  lemma EnqueueOnCores(q: Queue, now: int, op: Op, q': Queue)
    requires op.Enqueue?
    requires var row := New(op.id, op.kind, op.payload, op.runAt, op.maxAttempts, op.key, now);
             q' == if op.kind != "" && op.id !in q then q[op.id := row] else q
    ensures Step(Cores(q), now, op,
                 if op.kind == "" then EmptyKind
                 else if op.id in q then DuplicateId
                 else Created(New(op.id, op.kind, op.payload, op.runAt, op.maxAttempts, op.key, now)),
                 Cores(q'))
  {
    CoresPutGet(q, op.id, New(op.id, op.kind, op.payload, op.runAt, op.maxAttempts, op.key, now));
  }

  /** A claim on full rows is a claim step on their cores. */
  lemma ClaimOnCores(q: Queue, now: int, worker: string, kinds: seq<string>, picked: Option<Row>, q': Queue)
    requires match picked
             case None => q' == q && forall id :: !Runnable(q, kinds, now, id)
             case Some(row) =>
               IsPick(q, kinds, now, row.id) && row == Claimed(q[row.id], worker, now) && q' == q[row.id := row]
    ensures Step(Cores(q), now, Dequeue(worker, kinds), CoreReply(Claim(picked)), Cores(q'))
  {
    forall id ensures Runnable(Cores(q), kinds, now, id) <==> Runnable(q, kinds, now, id) {
      RunnableCores(q, kinds, now, id);
    }
    if picked.Some? {
      CoresPutGet(q, picked.value.id, picked.value);
      hide Runnable;
      assert IsPick(Cores(q), kinds, now, picked.value.id);
    }
  }

  lemma ExpiredCore(r: Row, cutoff: int)
    ensures Expired(Core(r), cutoff) == Expired(r, cutoff)
  {
  }

  lemma DeleteOnCores(q: Queue, q': Queue, cutoff: int, n: int)
    requires q' == map id | id in q && !Expired(q[id], cutoff) :: q[id]
    requires n == |q.Keys| - |q'.Keys|
    ensures Step(Cores(q), 0, Op.DeleteOlderThan(cutoff), Deleted(n), Cores(q'))
  {
    hide Expired, Core;
    CoresSize(q);
    CoresSize(q');
    forall id | id in q ensures Expired(Cores(q)[id], cutoff) == Expired(q[id], cutoff) {
      ExpiredCore(q[id], cutoff);
    }
  }

  lemma CoresSize(q: Queue)
    ensures Cores(q).Keys == q.Keys && |Cores(q)| == |q.Keys|
  {
    assert |Cores(q)| == |Cores(q).Keys|;
  }

  /** Two stores that start alike and take the same operation answer alike and stay alike; when both claim
      something they claim jobs due at the same instant, and the same job unless there is a tie. */
  lemma StepAgrees(q: Queue, now: int, op: Op, r1: Reply, q1: Queue, r2: Reply, q2: Queue)
    requires Step(q, now, op, r1, q1) && Step(q, now, op, r2, q2)
    ensures !op.Dequeue? ==> r1 == r2 && q1 == q2
    ensures op.Dequeue? ==> (r1.job.None? <==> r2.job.None?)
    ensures op.Dequeue? && r1.job.Some? ==> r1.job.value.runAt == r2.job.value.runAt
    ensures op.Dequeue? && r1.job.Some? && r1.job.value.id == r2.job.value.id ==> r1 == r2 && q1 == q2
  {
    hide Runnable;
  }

  // -------------------------------------------------------------------- the kind filter

  /** The in-memory filter drops empty names, and then filters only if something is left. */
  function NonEmpty(kinds: seq<string>): (r: seq<string>)
    ensures forall k :: k in r <==> k in kinds && k != ""
  {
    if kinds == [] then []
    else NonEmpty(kinds[..|kinds| - 1]) + (if kinds[|kinds| - 1] != "" then [kinds[|kinds| - 1]] else [])
  }

  lemma {:induction false} NothingKept(kinds: seq<string>)
    requires forall k | k in kinds :: k == ""
    ensures NonEmpty(kinds) == []
  {
    if kinds != [] {
      assert kinds[|kinds| - 1] in kinds;
      var init := kinds[..|kinds| - 1];
      forall k | k in init ensures k == "" {
        assert k in kinds;
      }
      NothingKept(init);
    }
  }

  /** The two stores select the same jobs exactly when the filter is empty or names a kind; a filter of
      empty names only means any kind in memory and no kind in Postgres. */
  lemma FiltersAgreeIff(kinds: seq<string>)
    ensures (forall kind | kind != "" :: Wanted(NonEmpty(kinds), kind) <==> Wanted(kinds, kind))
            <==> (kinds == [] || exists k | k in kinds :: k != "")
  {
    if k :| k in kinds && k != "" {
      assert k in NonEmpty(kinds);
    } else if kinds != [] {
      NothingKept(kinds);
      assert |"x"| == 1 && "x" !in kinds;
      assert Wanted(NonEmpty(kinds), "x") && !Wanted(kinds, "x");
    }
  }
}
