/** backend/internal/jobqueue/postgres.go: each SQL statement as one atomic update of the jobs table. */
module JobPostgres {
  import opened Wrappers
  import opened JobQueue

  /** UPDATE ... SET of Dequeue, Complete, Fail and Reschedule, column by column. */
  function SetRunning(r: Row, worker: string, now: int): Row {
    r.(status := Running, lockedBy := worker, lockedAt := Some(now), startedAt := Some(now),
       attempts := r.attempts + 1, updatedAt := now)
  }

  function SetSucceeded(r: Row, now: int): Row {
    r.(status := Succeeded, finishedAt := Some(now), lockedBy := "", updatedAt := now)
  }

  function SetFailed(r: Row, error: string, now: int): Row {
    r.(status := Failed, finishedAt := Some(now), lastError := error, lockedBy := "", updatedAt := now)
  }

  function SetRescheduled(r: Row, nextRunAt: int, error: string, now: int): Row {
    r.(status := if r.attempts >= r.maxAttempts then Failed else Pending,
       runAt := if r.attempts >= r.maxAttempts then r.runAt else nextRunAt,
       finishedAt := if r.attempts >= r.maxAttempts then Some(now) else None,
       lastError := error, lockedBy := "", lockedAt := None, startedAt := None, updatedAt := now)
  }

  /** WHERE id = $1 AND locked_by = $2 AND status = 'running' */
  predicate Where(r: Row, worker: string, id: string) { r.id == id && r.lockedBy == worker && r.status == Running }

  /** Rows are stored under their ids, and only finished jobs carry a finish stamp. */
  ghost predicate Keyed(rows: Queue) {
    forall id | id in rows :: rows[id].id == id && (IsTerminal(rows[id].status) || rows[id].finishedAt.None?)
  }

  lemma ClaimKeepsKeyed(q: Queue, id: string, worker: string, now: int)
    requires Keyed(q) && id in q && q[id].status == Pending
    ensures Keyed(q[id := Claimed(q[id], worker, now)]) && Claimed(q[id], worker, now).id == id
  {
  }

  class Postgres {
    /** The jobs table by its primary key. */
    var rows: Queue

    ghost predicate Valid()
      reads this
    {
      Keyed(rows)
    }

    constructor ()
      ensures Valid() && rows == map[]
    {
      rows := map[];
    }

    method Enqueue(id: string, kind: string, payload: Option<string>, runAt: Option<int>, maxAttempts: int, key: string,
                   now: int) returns (reply: Reply)
      requires Valid()
      modifies this
      ensures Valid()
      ensures Step(Cores(old(rows)), now, Op.Enqueue(id, kind, payload, runAt, maxAttempts, key), reply, Cores(rows))
    {
      hide Step, Cores;
      ghost var op := Op.Enqueue(id, kind, payload, runAt, maxAttempts, key);
      if kind == "" {
        EnqueueOnCores(rows, now, op, rows);
        return EmptyKind;
      }
      if id in rows {
        EnqueueOnCores(rows, now, op, rows);
        return DuplicateId;
      }
      var row := New(id, kind, payload, runAt, maxAttempts, key, now);
      rows := rows[id := row];
      EnqueueOnCores(old(rows), now, op, rows);
      return Created(row);
    }

    /** WITH picked AS (SELECT ... ORDER BY run_at LIMIT 1) UPDATE ... WHERE id = (SELECT id FROM picked) */
    method Dequeue(worker: string, kinds: seq<string>, now: int) returns (reply: Reply)
      requires Valid()
      modifies this
      ensures Valid()
      ensures Step(Cores(old(rows)), now, Op.Dequeue(worker, kinds), CoreReply(reply), Cores(rows))
      ensures reply.Claim? && reply.job.Some? ==>
                reply.job.value.lockedAt == Some(now) && reply.job.value.startedAt == Some(now)
    {
      ghost var q := rows;
      hide Step, Cores, CoreReply, KeyBusy;
      var selected := set id | id in rows && rows[id].status == Pending && rows[id].runAt <= now
                               && (kinds == [] || rows[id].kind in kinds)
                               && (rows[id].concurrencyKey == ""
                                   || !(exists other | other in rows ::
                                          rows[other].concurrencyKey == rows[id].concurrencyKey
                                          && rows[other].status == Running));
      SelectedAreRunnable(q, kinds, now, selected);
      hide Runnable;
      if selected == {} {
        ClaimOnCores(q, now, worker, kinds, None, q);
        return Claim(None);
      }
      ghost var least := LeastRunAt(q, selected);
      var id :| id in selected && forall k | k in selected :: rows[id].runAt <= rows[k].runAt;
      assert IsPick(q, kinds, now, id);
      hide IsPick;
      ClaimKeepsKeyed(q, id, worker, now);
      hide Keyed;
      rows := map k | k in rows :: if k == id then SetRunning(rows[k], worker, now) else rows[k];
      assert rows == q[id := Claimed(q[id], worker, now)];
      ClaimOnCores(q, now, worker, kinds, Some(rows[id]), rows);
      return Claim(Some(rows[id]));
    }

    method CheckOwnedRowAffected(affected: nat, id: string) returns (reply: Reply)
      ensures reply == if affected > 0 then Done else LateVerdict(rows, id)
    {
      if affected > 0 {
        return Done;
      }
      if id !in rows {
        return NotFound;
      }
      return NotLocked;
    }

    method Complete(worker: string, id: string, now: int) returns (reply: Reply)
      requires Valid()
      modifies this
      ensures Valid() && Step(Cores(old(rows)), now, Op.Complete(worker, id), reply, Cores(rows))
    {
      hide Step, Cores;
      ghost var q := rows;
      var affected := |set k | k in rows && Where(rows[k], worker, id)|;
      rows := map k | k in rows :: if Where(rows[k], worker, id) then SetSucceeded(rows[k], now) else rows[k];
      OneRow(q, worker, id);
      reply := CheckOwnedRowAffected(affected, id);
      CompleteStatement(q, now, worker, id, rows);
    }

    method Fail(worker: string, id: string, error: string, now: int) returns (reply: Reply)
      requires Valid()
      modifies this
      ensures Valid() && Step(Cores(old(rows)), now, Op.Fail(worker, id, error), reply, Cores(rows))
    {
      hide Step, Cores;
      ghost var q := rows;
      var affected := |set k | k in rows && Where(rows[k], worker, id)|;
      rows := map k | k in rows :: if Where(rows[k], worker, id) then SetFailed(rows[k], error, now) else rows[k];
      OneRow(q, worker, id);
      reply := CheckOwnedRowAffected(affected, id);
      FailStatement(q, now, worker, id, error, rows);
    }

    method Reschedule(worker: string, id: string, nextRunAt: int, error: string, now: int) returns (reply: Reply)
      requires Valid()
      modifies this
      ensures Valid() && Step(Cores(old(rows)), now, Op.Reschedule(worker, id, nextRunAt, error), reply, Cores(rows))
    {
      hide Step, Cores;
      ghost var q := rows;
      var affected := |set k | k in rows && Where(rows[k], worker, id)|;
      rows := map k | k in rows ::
                if Where(rows[k], worker, id) then SetRescheduled(rows[k], nextRunAt, error, now) else rows[k];
      OneRow(q, worker, id);
      reply := CheckOwnedRowAffected(affected, id);
      RescheduleStatement(q, now, worker, id, nextRunAt, error, rows);
    }

    method DeleteOlderThan(cutoff: int) returns (n: int)
      requires Valid()
      modifies this
      ensures Valid() && Step(Cores(old(rows)), 0, Op.DeleteOlderThan(cutoff), Deleted(n), Cores(rows))
    {
      ghost var q := rows;
      var doomed := set k | k in rows && IsTerminal(rows[k].status)
                            && (if rows[k].finishedAt.Some? then rows[k].finishedAt.value
                                else rows[k].updatedAt) < cutoff;
      n := |doomed|;
      rows := map k | k in rows && k !in doomed :: rows[k];
      DeletedRows(q, rows, doomed);
      DeleteOnCores(q, rows, cutoff, n);
    }
  }

  /** Row for row, stamps included, the stores differ only in one statement and one case: when Reschedule fails a job,
      Postgres clears the lock and start stamps and memory keeps them. */
  lemma SameRowsIff(r: Row, worker: string, nextRunAt: int, error: string, now: int)
    requires IsTerminal(r.status) || r.finishedAt.None?
    ensures SetRunning(r, worker, now) == Claimed(r, worker, now)
    ensures SetSucceeded(r, now) == Completed(r, now) && SetFailed(r, error, now) == FailedWith(r, error, now)
    ensures r.status == Running ==>
              (SetRescheduled(r, nextRunAt, error, now) == Rescheduled(r, nextRunAt, error, now)
               <==> r.attempts < r.maxAttempts || (r.lockedAt.None? && r.startedAt.None?))
  {
  }

  lemma SelectedAreRunnable(q: Queue, kinds: seq<string>, now: int, selected: set<string>)
    requires selected == set id | id in q && q[id].status == Pending && q[id].runAt <= now
                                  && (kinds == [] || q[id].kind in kinds)
                                  && (q[id].concurrencyKey == ""
                                      || !(exists other | other in q ::
                                             q[other].concurrencyKey == q[id].concurrencyKey
                                             && q[other].status == Running))
    ensures forall id :: id in selected <==> Runnable(q, kinds, now, id)
    ensures forall id | id in selected :: id in q
  {
  }

  lemma {:induction false} LeastRunAt(q: Queue, ids: set<string>) returns (least: string)
    requires ids != {} && ids <= q.Keys
    ensures least in ids && forall k | k in ids :: q[least].runAt <= q[k].runAt
  {
    var id :| id in ids;
    least := id;
    if ids != {id} {
      var other := LeastRunAt(q, ids - {id});
      if q[other].runAt < q[id].runAt {
        least := other;
      }
    }
  }

  /** The primary key lets a statement hit at most the row it names. */
  lemma OneRow(q: Queue, worker: string, id: string)
    requires forall k | k in q :: q[k].id == k
    ensures (set k | k in q && Where(q[k], worker, id)) == if Verdict(q, worker, id).Done? then {id} else {}
  {
  }

  lemma OnCores(q: Queue, worker: string, id: string, row: Row)
    ensures Verdict(Cores(q), worker, id) == Verdict(q, worker, id)
    ensures Cores(q[id := row]) == Cores(q)[id := Core(row)]
    ensures id in q ==> Cores(q)[id] == Core(q[id])
  {
  }

  lemma CompleteStatement(q: Queue, now: int, worker: string, id: string, q': Queue)
    requires forall k | k in q :: q[k].id == k
    requires q' == map k | k in q :: if Where(q[k], worker, id) then SetSucceeded(q[k], now) else q[k]
    ensures Step(Cores(q), now, Op.Complete(worker, id), Verdict(q, worker, id), Cores(q'))
  {
    hide Cores;
    if Verdict(q, worker, id).Done? {
      assert q' == q[id := SetSucceeded(q[id], now)];
      OnCores(q, worker, id, SetSucceeded(q[id], now));
    } else {
      assert q' == q;
      OnCores(q, worker, id, New(id, "", None, None, 0, "", now));
    }
  }

  lemma FailStatement(q: Queue, now: int, worker: string, id: string, error: string, q': Queue)
    requires forall k | k in q :: q[k].id == k
    requires q' == map k | k in q :: if Where(q[k], worker, id) then SetFailed(q[k], error, now) else q[k]
    ensures Step(Cores(q), now, Op.Fail(worker, id, error), Verdict(q, worker, id), Cores(q'))
  {
    hide Cores;
    if Verdict(q, worker, id).Done? {
      assert q' == q[id := SetFailed(q[id], error, now)];
      OnCores(q, worker, id, SetFailed(q[id], error, now));
    } else {
      assert q' == q;
      OnCores(q, worker, id, New(id, "", None, None, 0, "", now));
    }
  }

  /** NULL in finished_at changes nothing, because an unfinished job has no finish stamp. */
  lemma RescheduleStatement(q: Queue, now: int, worker: string, id: string, nextRunAt: int, error: string, q': Queue)
    requires forall k | k in q :: q[k].id == k && (IsTerminal(q[k].status) || q[k].finishedAt.None?)
    requires q' == map k | k in q ::
               if Where(q[k], worker, id) then SetRescheduled(q[k], nextRunAt, error, now) else q[k]
    ensures Step(Cores(q), now, Op.Reschedule(worker, id, nextRunAt, error), Verdict(q, worker, id), Cores(q'))
  {
    hide Cores;
    if Verdict(q, worker, id).Done? {
      assert q' == q[id := SetRescheduled(q[id], nextRunAt, error, now)];
      OnCores(q, worker, id, SetRescheduled(q[id], nextRunAt, error, now));
    } else {
      assert q' == q;
      OnCores(q, worker, id, New(id, "", None, None, 0, "", now));
    }
  }

  lemma DeletedRows(q: Queue, q': Queue, doomed: set<string>)
    requires doomed <= q.Keys && q' == map k | k in q && k !in doomed :: q[k]
    ensures |doomed| == |q.Keys| - |q'.Keys|
  {
    assert q'.Keys == q.Keys - doomed;
  }
}
