/** backend/internal/jobqueue/memory.go: the in-memory store, jobs mutated in place under one mutex. */
module JobMemory {
  import opened Wrappers
  import opened JobQueue

  class Job {
    var id: string
    var kind: string
    var payload: string
    var status: Status
    var attempts: int
    var maxAttempts: int
    var runAt: int
    var lockedBy: string
    var lockedAt: Option<int>
    var startedAt: Option<int>
    var finishedAt: Option<int>
    var lastError: string
    var concurrencyKey: string
    var createdAt: int
    var updatedAt: int

    function View(): Row
      reads this
    {
      Row(id, kind, payload, status, attempts, maxAttempts, runAt, lockedBy, lockedAt, startedAt, finishedAt,
          lastError, concurrencyKey, createdAt, updatedAt)
    }

    constructor (row: Row)
      ensures View() == row
    {
      id, kind, payload, status := row.id, row.kind, row.payload, row.status;
      attempts, maxAttempts, runAt := row.attempts, row.maxAttempts, row.runAt;
      lockedBy, lockedAt, startedAt, finishedAt := row.lockedBy, row.lockedAt, row.startedAt, row.finishedAt;
      lastError, concurrencyKey := row.lastError, row.concurrencyKey;
      createdAt, updatedAt := row.createdAt, row.updatedAt;
    }

    method ClaimFor(worker: string, now: int)
      modifies this
      ensures View() == Claimed(old(View()), worker, now)
    {
      status := Running;
      Lock(worker, Some(now));
      attempts := attempts + 1;
      updatedAt := now;
    }

    method Succeed(now: int)
      modifies this
      ensures View() == Completed(old(View()), now)
    {
      status := Succeeded;
      finishedAt := Some(now);
      lockedBy := "";
      updatedAt := now;
    }

    method FailFor(error: string, now: int)
      modifies this
      ensures View() == FailedWith(old(View()), error, now)
    {
      status := Failed;
      finishedAt := Some(now);
      lastError := error;
      lockedBy := "";
      updatedAt := now;
    }

    method Retry(nextRunAt: int, error: string, now: int)
      modifies this
      ensures View() == Rescheduled(old(View()), nextRunAt, error, now)
    {
      if attempts >= maxAttempts {
        FailFor(error, now);
        return;
      }
      status := Pending;
      runAt := nextRunAt;
      lastError := error;
      Lock("", None);
      updatedAt := now;
    }

    /** The three fields that say who has claimed the job, and since when. */
    method Lock(worker: string, at: Option<int>)
      modifies this
      ensures View() == old(View()).(lockedBy := worker, lockedAt := at, startedAt := at)
    {
      lockedBy := worker;
      lockedAt := at;
      startedAt := at;
    }
  }

  class Memory {
    var jobs: map<string, Job>

    ghost predicate Valid()
      reads this, jobs.Values
    {
      forall id | id in jobs :: jobs[id].id == id
    }

    ghost function Contents(): Queue
      reads this, jobs.Values
    {
      map id | id in jobs :: jobs[id].View()
    }

    constructor ()
      ensures Valid() && Contents() == map[]
    {
      jobs := map[];
    }

    method Enqueue(id: string, kind: string, payload: Option<string>, runAt: Option<int>, maxAttempts: int, key: string,
                   now: int) returns (reply: Reply)
      requires Valid()
      modifies this
      ensures Valid() && fresh(jobs.Values - old(jobs.Values))
      ensures Step(Cores(old(Contents())), now, Op.Enqueue(id, kind, payload, runAt, maxAttempts, key), reply,
                   Cores(Contents()))
    {
      hide Step, Cores, New;
      ghost var q, op := Contents(), Op.Enqueue(id, kind, payload, runAt, maxAttempts, key);
      if kind == "" {
        EnqueueOnCores(q, now, op, q);
        return EmptyKind;
      }
      if id in jobs {
        EnqueueOnCores(q, now, op, q);
        return DuplicateId;
      }
      var j := new Job(New(id, kind, payload, runAt, maxAttempts, key, now));
      NewId(op, now);
      Insert(j);
      EnqueueOnCores(q, now, op, Contents());
      var copy := new Job(j.View());
      reply := Created(copy.View());
    }

    method Insert(j: Job)
      requires Valid() && j.id !in jobs && j !in jobs.Values
      modifies this
      ensures Valid() && jobs == old(jobs)[j.id := j]
      ensures Contents() == old(Contents())[j.id := j.View()]
    {
      ghost var q := Contents();
      jobs := jobs[j.id := j];
      assert Contents() == q[j.id := j.View()];
    }

    /** The concurrency keys held by running jobs. */
    method RunningKeys() returns (keys: set<string>)
      requires Valid()
      ensures forall key :: key in keys <==> key != "" && KeyBusy(Contents(), key)
    {
      keys := {};
      var rest := jobs.Keys;
      while rest != {}
        invariant rest <= jobs.Keys
        invariant forall key :: key in keys <==> key != "" && exists id | id in jobs.Keys - rest ::
                      jobs[id].status == Running && jobs[id].concurrencyKey == key
        decreases rest
      {
        var id :| id in rest;
        rest := rest - {id};
        if jobs[id].status == Running && jobs[id].concurrencyKey != "" {
          keys := keys + {jobs[id].concurrencyKey};
        }
      }
      BusyIn(Contents());
      assert forall id | id in jobs ::
               Contents()[id].status == jobs[id].status && Contents()[id].concurrencyKey == jobs[id].concurrencyKey;
    }

    /** The jobs that may be claimed, in map order: any order. */
    method Candidates(kinds: seq<string>, keys: set<string>, now: int) returns (candidates: seq<Job>)
      requires Valid() && forall key :: key in keys <==> key != "" && KeyBusy(Contents(), key)
      ensures forall i | 0 <= i < |candidates| ::
                candidates[i].id in jobs && jobs[candidates[i].id] == candidates[i]
                && Runnable(Contents(), NonEmpty(kinds), now, candidates[i].id)
      ensures forall id | Runnable(Contents(), NonEmpty(kinds), now, id) :: jobs[id] in candidates
    {
      hide KeyBusy;
      candidates := [];
      var filter := NonEmpty(kinds);
      var rest := jobs.Keys;
      while rest != {}
        invariant rest <= jobs.Keys
        invariant forall i | 0 <= i < |candidates| ::
                    candidates[i].id in jobs && jobs[candidates[i].id] == candidates[i]
                    && Runnable(Contents(), filter, now, candidates[i].id)
        invariant forall id | id in jobs.Keys - rest && Runnable(Contents(), filter, now, id) :: jobs[id] in candidates
        decreases rest
      {
        var id :| id in rest;
        rest := rest - {id};
        var j := jobs[id];
        assert Contents()[id] == j.View();
        if j.status != Pending {
          continue;
        }
        if j.runAt > now {
          continue;
        }
        if |filter| > 0 && j.kind !in filter {
          continue;
        }
        if j.concurrencyKey != "" && j.concurrencyKey in keys {
          continue;
        }
        candidates := candidates + [j];
      }
    }

    method Dequeue(worker: string, kinds: seq<string>, now: int) returns (reply: Reply)
      requires Valid()
      modifies jobs.Values
      ensures Valid()
      ensures reply.Claim? && match reply.job
              case None => Contents() == old(Contents())
              case Some(row) =>
                IsPick(old(Contents()), NonEmpty(kinds), now, row.id) && Contents() == old(Contents())[row.id := row]
                && row == Claimed(old(Contents())[row.id], worker, now)
      ensures Step(Cores(old(Contents())), now, Op.Dequeue(worker, NonEmpty(kinds)), CoreReply(reply),
                   Cores(Contents()))
      ensures reply.Claim? && reply.job.Some? ==>
                reply.job.value.lockedAt == Some(now) && reply.job.value.startedAt == Some(now)
    {
      hide Runnable, KeyBusy, IsPick, Step, CoreReply, Cores, Core, Claimed;
      ghost var q := Contents();
      var picked := Pick(kinds, now);
      assert Contents() == q;
      if picked.None? {
        ClaimOnCores(q, now, worker, NonEmpty(kinds), None, q);
        return Claim(None);
      }
      var row := ClaimPicked(picked.value, worker, now);
      ClaimedId(q[row.id], worker, now);
      ClaimOnCores(q, now, worker, NonEmpty(kinds), Some(row), Contents());
      reply := Claim(Some(row));
    }

    /** A job to claim: of the runnable ones, one that is due earliest. */
    method Pick(kinds: seq<string>, now: int) returns (picked: Option<Job>)
      requires Valid()
      ensures picked.Some? ==> picked.value.id in jobs && jobs[picked.value.id] == picked.value
                               && IsPick(Contents(), NonEmpty(kinds), now, picked.value.id)
      ensures picked.None? ==> forall id :: !Runnable(Contents(), NonEmpty(kinds), now, id)
    {
      hide Runnable, KeyBusy;
      ghost var q := Contents();
      RunnableIsStored(q, NonEmpty(kinds), now);
      var keys := RunningKeys();
      var candidates := Candidates(kinds, keys, now);
      assert Contents() == q;
      if |candidates| == 0 {
        return None;
      }
      var first := Earliest(candidates);
      assert q[first.id] == first.View();
      forall k | k in q && Runnable(q, NonEmpty(kinds), now, k) ensures q[first.id].runAt <= q[k].runAt {
        assert jobs[k] in candidates && q[k] == jobs[k].View();
      }
      return Some(first);
    }

    /** Marks the picked job as running and copies it for the caller. */
    method ClaimPicked(picked: Job, worker: string, now: int) returns (row: Row)
      requires Valid() && picked.id in jobs && jobs[picked.id] == picked
      modifies picked
      ensures Valid() && row.id == old(picked.id) && row == Claimed(old(Contents())[row.id], worker, now)
      ensures Contents() == old(Contents())[row.id := row]
    {
      hide Claimed;
      ghost var q := Contents();
      assert q[picked.id] == picked.View();
      ClaimedId(picked.View(), worker, now);
      picked.ClaimFor(worker, now);
      assert Contents() == q[picked.id := picked.View()];
      var copy := new Job(picked.View());
      row := copy.View();
    }

    method Complete(worker: string, id: string, now: int) returns (reply: Reply)
      requires Valid()
      modifies jobs.Values
      ensures Valid() && reply == Verdict(old(Contents()), worker, id)
      ensures Contents() ==
                if reply.Done? then old(Contents())[id := Completed(old(Contents())[id], now)] else old(Contents())
      ensures Step(Cores(old(Contents())), now, Op.Complete(worker, id), reply, Cores(Contents()))
    {
      ghost var q := Contents();
      if id !in jobs {
        return NotFound;
      }
      var j := jobs[id];
      assert q[id] == j.View();
      if j.lockedBy != worker || j.status != Running {
        return NotLocked;
      }
      j.Succeed(now);
      assert Contents() == q[id := j.View()];
      CoresPutGet(q, id, j.View());
      return Done;
    }

    method Fail(worker: string, id: string, error: string, now: int) returns (reply: Reply)
      requires Valid()
      modifies jobs.Values
      ensures Valid() && reply == Verdict(old(Contents()), worker, id)
      ensures Contents() ==
                if reply.Done? then old(Contents())[id := FailedWith(old(Contents())[id], error, now)]
                else old(Contents())
      ensures Step(Cores(old(Contents())), now, Op.Fail(worker, id, error), reply, Cores(Contents()))
    {
      ghost var q := Contents();
      if id !in jobs {
        return NotFound;
      }
      var j := jobs[id];
      assert q[id] == j.View();
      if j.lockedBy != worker || j.status != Running {
        return NotLocked;
      }
      j.FailFor(error, now);
      assert Contents() == q[id := j.View()];
      CoresPutGet(q, id, j.View());
      return Done;
    }

    method Reschedule(worker: string, id: string, nextRunAt: int, error: string, now: int) returns (reply: Reply)
      requires Valid()
      modifies jobs.Values
      ensures Valid() && reply == Verdict(old(Contents()), worker, id)
      ensures Contents() ==
                if reply.Done? then old(Contents())[id := Rescheduled(old(Contents())[id], nextRunAt, error, now)]
                            else old(Contents())
      ensures Step(Cores(old(Contents())), now, Op.Reschedule(worker, id, nextRunAt, error), reply, Cores(Contents()))
    {
      ghost var q := Contents();
      if id !in jobs {
        return NotFound;
      }
      var j := jobs[id];
      assert q[id] == j.View();
      if j.lockedBy != worker || j.status != Running {
        return NotLocked;
      }
      j.Retry(nextRunAt, error, now);
      assert Contents() == q[id := j.View()];
      CoresPutGet(q, id, j.View());
      return Done;
    }

    method Get(id: string) returns (r: Option<Row>)
      requires Valid()
      ensures r == if id in Contents() then Some(Contents()[id]) else None
    {
      if id !in jobs {
        return None;
      }
      var copy := new Job(jobs[id].View());
      return Some(copy.View());
    }

    /** Counts per status; a status without jobs has no entry. */
    method Stats() returns (counts: map<Status, int>)
      requires Valid()
      ensures forall s :: Count(counts, s) == |WithStatus(Contents(), s)| && (s in counts ==> 0 < counts[s])
    {
      hide Tally;
      counts := map[];
      var rest := jobs.Keys;
      ghost var q := Contents();
      TallyEnds(q);
      while rest != {}
        invariant rest <= jobs.Keys == q.Keys
        invariant forall s :: Count(counts, s) == Tally(q, rest, s) && (s in counts ==> 0 < counts[s])
        decreases rest
      {
        var id :| id in rest;
        TallyStep(q, rest, id);
        rest := rest - {id};
        assert q[id].status == jobs[id].status;
        counts := counts[jobs[id].status := Count(counts, jobs[id].status) + 1];
      }
    }

    method DeleteOlderThan(cutoff: int) returns (n: int)
      requires Valid()
      modifies this
      ensures Valid() && jobs.Values <= old(jobs.Values)
      ensures Step(Cores(old(Contents())), 0, Op.DeleteOlderThan(cutoff), Deleted(n), Cores(Contents()))
    {
      hide Step, Cores, Swept;
      ghost var q := Contents();
      n := SweepJobs(cutoff);
      assert Contents().Keys == jobs.Keys;
      SweptAll(q, Contents(), cutoff, n);
      DeleteOnCores(q, Contents(), cutoff, n);
    }

    /** The loop over the map. */
    method SweepJobs(cutoff: int) returns (n: int)
      requires Valid()
      modifies this
      ensures Valid() && jobs.Values <= old(jobs.Values)
      ensures Swept(old(Contents()), jobs.Keys, {}, cutoff, n)
      ensures forall id | id in Contents() :: id in old(Contents()) && Contents()[id] == old(Contents())[id]
    {
      hide Expired, Swept;
      n := 0;
      ghost var q, before := Contents(), jobs;
      assert q.Keys == jobs.Keys;
      NothingSwept(q, cutoff);
      var rest := jobs.Keys;
      while rest != {}
        invariant rest <= jobs.Keys <= before.Keys && Swept(q, jobs.Keys, rest, cutoff, n)
        invariant forall id | id in jobs :: jobs[id] == before[id]
        decreases rest
      {
        var id :| id in rest;
        var expired := IsOld(jobs[id], cutoff);
        assert q[id] == jobs[id].View();
        SweepOne(q, jobs.Keys, rest, cutoff, n, id);
        rest := rest - {id};
        if expired {
          assert jobs.Keys - {id} == (jobs - {id}).Keys;
          jobs := jobs - {id};
          n := n + 1;
        }
      }
    }
  }

  /** A finished job whose finish stamp, or failing that its last update, is before cutoff. */
  method IsOld(j: Job, cutoff: int) returns (r: bool)
    ensures r == Expired(j.View(), cutoff)
  {
    if !IsTerminal(j.status) {
      return false;
    }
    var finished := j.updatedAt;
    if j.finishedAt.Some? {
      finished := j.finishedAt.value;
    }
    return finished < cutoff;
  }

  /** The ids left after n deletions, with rest still to look at. */
  ghost predicate Swept(q: Queue, keys: set<string>, rest: set<string>, cutoff: int, n: int) {
    && (forall id :: id in keys <==> id in q && (id in rest || !Expired(q[id], cutoff)))
    && n == |q.Keys| - |keys|
  }

  lemma NothingSwept(q: Queue, cutoff: int)
    ensures Swept(q, q.Keys, q.Keys, cutoff, 0)
  {
  }

  lemma SweptAll(q: Queue, q': Queue, cutoff: int, n: int)
    requires Swept(q, q'.Keys, {}, cutoff, n) && forall id | id in q' :: id in q && q'[id] == q[id]
    ensures q' == (map id | id in q && !Expired(q[id], cutoff) :: q[id]) && n == |q.Keys| - |q'.Keys|
  {
  }

  lemma SweepOne(q: Queue, keys: set<string>, rest: set<string>, cutoff: int, n: int, id: string)
    requires Swept(q, keys, rest, cutoff, n) && id in rest && rest <= keys
    ensures id in q
    ensures if Expired(q[id], cutoff) then Swept(q, keys - {id}, rest - {id}, cutoff, n + 1)
            else Swept(q, keys, rest - {id}, cutoff, n)
  {
  }

  lemma NewId(op: Op, now: int)
    requires op.Enqueue?
    ensures New(op.id, op.kind, op.payload, op.runAt, op.maxAttempts, op.key, now).id == op.id
  {
  }

  lemma ClaimedId(row: Row, worker: string, now: int)
    ensures Claimed(row, worker, now).id == row.id
    ensures Claimed(row, worker, now).lockedAt == Some(now) && Claimed(row, worker, now).startedAt == Some(now)
  {
  }

  /** sort.Slice by RunAt and take the first: some candidate with the least RunAt. */
  method Earliest(candidates: seq<Job>) returns (picked: Job)
    requires candidates != []
    ensures picked in candidates && forall j | j in candidates :: picked.runAt <= j.runAt
  {
    var i := LeastExists(candidates);
    var k :| 0 <= k < |candidates| && forall l | 0 <= l < |candidates| :: candidates[k].runAt <= candidates[l].runAt;
    picked := candidates[k];
  }

  lemma {:induction false} LeastExists(candidates: seq<Job>) returns (i: nat)
    requires candidates != []
    ensures i < |candidates| && forall l | 0 <= l < |candidates| :: candidates[i].runAt <= candidates[l].runAt
  {
    i := 0;
    if |candidates| > 1 {
      i := LeastExists(candidates[..|candidates| - 1]);
      if candidates[|candidates| - 1].runAt < candidates[i].runAt {
        i := |candidates| - 1;
      }
    }
  }

  ghost function WithStatus(q: Queue, s: Status): set<string> { set id | id in q && q[id].status == s }

  /** How many jobs outside rest have status s. */
  ghost function Tally(q: Queue, rest: set<string>, s: Status): nat { |WithStatus(q, s) - rest| }

  lemma TallyEnds(q: Queue)
    ensures forall s :: Tally(q, q.Keys, s) == 0 && Tally(q, {}, s) == |WithStatus(q, s)|
  {
    forall s ensures Tally(q, q.Keys, s) == 0 && Tally(q, {}, s) == |WithStatus(q, s)| {
      assert WithStatus(q, s) - q.Keys == {} && WithStatus(q, s) - {} == WithStatus(q, s);
    }
  }

  lemma TallyStep(q: Queue, rest: set<string>, id: string)
    requires id in rest && rest <= q.Keys
    ensures forall s :: Tally(q, rest - {id}, s) == Tally(q, rest, s) + (if q[id].status == s then 1 else 0)
  {
    forall s ensures Tally(q, rest - {id}, s) == Tally(q, rest, s) + (if q[id].status == s then 1 else 0) {
      if q[id].status == s {
        assert WithStatus(q, s) - (rest - {id}) == (WithStatus(q, s) - rest) + {id};
      } else {
        assert WithStatus(q, s) - (rest - {id}) == WithStatus(q, s) - rest;
      }
    }
  }

  function Count(counts: map<Status, int>, s: Status): int { if s in counts then counts[s] else 0 }

  lemma BusyIn(q: Queue)
    ensures forall key ::
              KeyBusy(q, key) <==> exists id | id in q :: q[id].status == Running && q[id].concurrencyKey == key
  {
  }

  lemma RunnableIsStored(q: Queue, kinds: seq<string>, now: int)
    ensures forall id | Runnable(q, kinds, now, id) :: id in q
  {
  }
}
