/** What every interleaving of queue operations keeps, whichever store executes them. */
module JobProtocol {
  import opened JobQueue

  ghost predicate RowOk(id: string, r: Row) {
    && r.id == id && r.kind != ""
    && 0 <= r.attempts <= r.maxAttempts && 1 <= r.maxAttempts
    && (r.status == Pending ==> r.attempts < r.maxAttempts)
    && (r.status != Pending ==> 1 <= r.attempts)
    && (r.status == Running <==> r.lockedBy != "")
    && (r.finishedAt.Some? <==> IsTerminal(r.status))
    && r.status != Cancelled
  }

  /** No two running jobs share a concurrency key. */
  ghost predicate KeysExclusive(q: Queue) {
    forall a, b | a in q && b in q && a != b && q[a].status == Running && q[b].status == Running ::
      q[a].concurrencyKey == "" || q[a].concurrencyKey != q[b].concurrencyKey
  }

  ghost predicate Inv(q: Queue) { (forall id | id in q :: RowOk(id, q[id])) && KeysExclusive(q) }

  /** Workers identify themselves when they claim. */
  predicate Signed(op: Op) { op.Dequeue? ==> op.worker != "" }

  // -------------------------------------------------------------- how one job may change

  /** The job a claim or a report is about. */
  ghost predicate About(op: Op, reply: Reply, id: string) {
    match op
    case Dequeue(_, _) => reply.Claim? && reply.job.Some? && reply.job.value.id == id
    case Complete(_, i) => reply.Done? && i == id
    case Fail(_, i, _) => reply.Done? && i == id
    case Reschedule(_, i, _, _) => reply.Done? && i == id
    case _ => false
  }

  /** Every job stays as it was unless the step claims it, reports on it or deletes it. */
  lemma StepChanges(q: Queue, now: int, op: Op, reply: Reply, q': Queue, id: string)
    requires Step(q, now, op, reply, q') && id in q
    ensures id in q' && !About(op, reply, id) ==> q'[id] == q[id]
    ensures About(op, reply, id) ==> id in q'
    ensures id !in q' ==> op.DeleteOlderThan? && Expired(q[id], op.cutoff)
  {
    hide Runnable;
  }

  lemma ClaimTakesPending(q: Queue, now: int, op: Op, reply: Reply, q': Queue)
    requires Step(q, now, op, reply, q')
    ensures op.Dequeue? && reply.job.Some? ==> reply.job.value.id in q && q[reply.job.value.id].status == Pending
  {
    if op.Dequeue? && reply.job.Some? {
      assert Runnable(q, op.kinds, now, reply.job.value.id);
    }
  }

  /** A running job is left alone by everyone but its owner, and is never deleted. */
  lemma OnlyOwnerFinishes(q: Queue, now: int, op: Op, reply: Reply, q': Queue, id: string)
    requires Step(q, now, op, reply, q') && id in q && q[id].status == Running
    ensures id in q'
    ensures q'[id] != q[id]
            ==> (op.Complete? || op.Fail? || op.Reschedule?) && op.id == id && op.worker == q[id].lockedBy
  {
    StepChanges(q, now, op, reply, q', id);
    ClaimTakesPending(q, now, op, reply, q');
  }

  /** A finished job changes only by being deleted, and only after its cutoff. */
  lemma TerminalIsFinal(q: Queue, now: int, op: Op, reply: Reply, q': Queue, id: string)
    requires Step(q, now, op, reply, q') && id in q && IsTerminal(q[id].status)
    ensures id in q' ==> q'[id] == q[id]
    ensures id !in q' <==> op.DeleteOlderThan? && Expired(q[id], op.cutoff)
  {
    StepChanges(q, now, op, reply, q', id);
    ClaimTakesPending(q, now, op, reply, q');
  }

  // ------------------------------------------------------------------------ the invariant

  lemma ClaimKeepsKeys(q: Queue, now: int, op: Op, reply: Reply, q': Queue)
    requires Inv(q) && op.Dequeue? && Step(q, now, op, reply, q')
    ensures KeysExclusive(q')
  {
    if reply.job.Some? {
      var id := reply.job.value.id;
      assert Runnable(q, op.kinds, now, id);
      forall a | a in q && q[a].status == Running && q[a].concurrencyKey == q[id].concurrencyKey
        ensures q[id].concurrencyKey == ""
      {
        assert KeyBusy(q, q[id].concurrencyKey);
      }
    }
  }

  lemma StepKeepsRows(q: Queue, now: int, op: Op, reply: Reply, q': Queue, id: string)
    requires Inv(q) && Signed(op) && Step(q, now, op, reply, q') && id in q'
    ensures RowOk(id, q'[id])
  {
    hide KeysExclusive;
    if id in q && !About(op, reply, id) {
      StepChanges(q, now, op, reply, q', id);
    } else {
      ClaimTakesPending(q, now, op, reply, q');
    }
  }

  lemma StepKeepsInv(q: Queue, now: int, op: Op, reply: Reply, q': Queue)
    requires Inv(q) && Signed(op) && Step(q, now, op, reply, q')
    ensures Inv(q')
  {
    hide RowOk;
    forall id | id in q' ensures RowOk(id, q'[id]) {
      StepKeepsRows(q, now, op, reply, q', id);
    }
    if op.Dequeue? {
      ClaimKeepsKeys(q, now, op, reply, q');
    } else {
      OthersKeepKeys(q, now, op, reply, q');
    }
  }

  lemma OthersKeepKeys(q: Queue, now: int, op: Op, reply: Reply, q': Queue)
    requires KeysExclusive(q) && !op.Dequeue? && Step(q, now, op, reply, q')
    ensures KeysExclusive(q')
  {
    forall id | id in q' && q'[id].status == Running
      ensures id in q && q[id].status == Running && q'[id].concurrencyKey == q[id].concurrencyKey
    {
    }
  }

  /** The invariant over every run of signed operations, in any interleaving. */
  datatype Event = Event(now: int, op: Op, reply: Reply)

  ghost predicate Run(qs: seq<Queue>, events: seq<Event>) {
    && |qs| == |events| + 1
    && forall i | 0 <= i < |events| ::
         Signed(events[i].op) && Step(qs[i], events[i].now, events[i].op, events[i].reply, qs[i + 1])
  }

  lemma {:induction false} InvThroughout(qs: seq<Queue>, events: seq<Event>, i: nat)
    requires Run(qs, events) && i <= |events| && Inv(qs[0])
    ensures Inv(qs[i])
  {
    hide Inv, Step, Signed;
    if i > 0 {
      InvThroughout(qs, events, i - 1);
      StepKeepsInv(qs[i - 1], events[i - 1].now, events[i - 1].op, events[i - 1].reply, qs[i]);
    }
  }

  // ------------------------------------------- the second statement of a refused report

  ghost predicate DeletesAt(qs: seq<Queue>, id: string, i: nat)
    requires i + 1 < |qs|
  {
    id in qs[i] && id !in qs[i + 1]
  }

  lemma {:induction false} PresentIff(qs: seq<Queue>, events: seq<Event>, id: string, n: nat)
    requires Run(qs, events) && n <= |events|
    requires forall i | 0 <= i < n :: !(events[i].op.Enqueue? && events[i].op.id == id)
    ensures id in qs[n] <==> id in qs[0] && forall i | 0 <= i < n :: !DeletesAt(qs, id, i)
  {
    if n > 0 {
      PresentIff(qs, events, id, n - 1);
      assert Step(qs[n - 1], events[n - 1].now, events[n - 1].op, events[n - 1].reply, qs[n]);
      PresentBefore(qs[n - 1], events[n - 1].now, events[n - 1].op, events[n - 1].reply, qs[n], id);
      assert id in qs[n] <==> id in qs[n - 1] && !DeletesAt(qs, id, n - 1);
    }
  }

  lemma PresentBefore(q: Queue, now: int, op: Op, reply: Reply, q': Queue, id: string)
    requires Step(q, now, op, reply, q') && !(op.Enqueue? && op.id == id)
    ensures id in q' ==> id in q
  {
    ClaimTakesPending(q, now, op, reply, q');
  }

  /** Other clients may run between the two statements of a refused report. The answer is still the one due at the
      first statement, unless the job was there and was deleted in between. */
  lemma LateCheckIff(qs: seq<Queue>, events: seq<Event>, worker: string, id: string)
    requires Run(qs, events) && Verdict(qs[0], worker, id) != Done
    requires forall i | 0 <= i < |events| :: !(events[i].op.Enqueue? && events[i].op.id == id)
    ensures LateVerdict(qs[|events|], id) == Verdict(qs[0], worker, id)
            <==> forall i | 0 <= i < |events| :: !DeletesAt(qs, id, i)
  {
    hide Step, Signed;
    PresentIff(qs, events, id, |events|);
    if id !in qs[0] {
      forall i | 0 <= i < |events| ensures !DeletesAt(qs, id, i) {
        PresentIff(qs, events, id, i);
      }
    }
  }

  // -------------------------------------------------------------------------- the measure

  /** Claims and reports still possible for a job. */
  function Budget(r: Row): int {
    if IsTerminal(r.status) then 0
    else 2 * (r.maxAttempts - r.attempts) + (if r.status == Running then 1 else 0)
  }

  /** Every claim of a job and every report on it uses up some of its budget; nothing else touches it. */
  lemma BudgetShrinks(q: Queue, now: int, op: Op, reply: Reply, q': Queue, id: string)
    requires Inv(q) && Signed(op) && Step(q, now, op, reply, q') && id in q && id in q'
    ensures 0 <= Budget(q'[id])
    ensures if About(op, reply, id) then Budget(q'[id]) < Budget(q[id]) else Budget(q'[id]) == Budget(q[id])
  {
    StepKeepsRows(q, now, op, reply, q', id);
    StepChanges(q, now, op, reply, q', id);
    assert RowOk(id, q[id]);
    ClaimTakesPending(q, now, op, reply, q');
  }

  /** Claims of and reports on id since it was last enqueued. */
  ghost function Uses(events: seq<Event>, id: string, i: nat): nat
    requires i <= |events|
  {
    if i == 0 then 0
    else
      var e := events[i - 1];
      if e.reply.Created? && e.op.Enqueue? && e.op.id == id then 0
      else Uses(events, id, i - 1) + (if About(e.op, e.reply, id) then 1 else 0)
  }

  /** So a job sees at most two steps per allowed attempt, however the workers interleave. */
  lemma {:induction false} UsesAreBounded(qs: seq<Queue>, events: seq<Event>, id: string, i: nat)
    requires Run(qs, events) && i <= |events| && qs[0] == map[] && id in qs[i]
    ensures Uses(events, id, i) + Budget(qs[i][id]) <= 2 * qs[i][id].maxAttempts
  {
    hide Inv, Step, Signed, Budget, About;
    if i > 0 {
      var e := events[i - 1];
      EmptyIsOk();
      InvThroughout(qs, events, i - 1);
      UseOnce(qs[i - 1], e, qs[i], id);
      if id in qs[i - 1] {
        UsesAreBounded(qs, events, id, i - 1);
      }
    }
  }

  lemma EmptyIsOk()
    ensures Inv(map[])
  {
  }

  lemma UseOnce(q: Queue, e: Event, q': Queue, id: string)
    requires Inv(q) && Signed(e.op) && Step(q, e.now, e.op, e.reply, q') && id in q'
    ensures id in q ==> !(e.reply.Created? && e.op.Enqueue? && e.op.id == id)
    ensures id in q ==> q'[id].maxAttempts == q[id].maxAttempts
    ensures id in q ==> Budget(q'[id]) + (if About(e.op, e.reply, id) then 1 else 0) <= Budget(q[id])
    ensures id !in q ==> e.reply.Created? && e.op.Enqueue? && e.op.id == id && Budget(q'[id]) == 2 * q'[id].maxAttempts
  {
    hide Runnable;
    ClaimTakesPending(q, e.now, e.op, e.reply, q');
    if id in q {
      BudgetShrinks(q, e.now, e.op, e.reply, q', id);
      StepChanges(q, e.now, e.op, e.reply, q', id);
    }
  }
}
