/** backend/internal/server/runs.go:103-171: permits, the wait group and the heartbeat goroutine of concurrent runs. */
module RunCoordinator {
  /** Names one call of SpawnWithDeadline. */
  datatype SpawnId = SpawnId(n: nat)

  /** Where a spawn, and then its goroutine, is. */
  datatype Phase =
    | Called     // before the capacity gate
    | Rejected   // ErrRunCapacity returned
    | Admitted   // permit taken, before wg.Add
    | Tracked    // counted in the wait group, before the heartbeat goroutine starts
    | Working
    | Stopping   // work returned and hbCancel called, waiting for hbDone
    | Joined     // hbDone received, deferred calls to run
    | Released   // permit given back
    | Finished   // wg.Done called

  datatype Beat = NotStarted | Alive | Dead

  /** expired: the run's context is done, by deadline or by the caller's cancellation. */
  datatype Spawned = Spawned(phase: Phase, beat: Beat, expired: bool)

  /** held counts permits of the semaphore; a cap of 0 means there is no semaphore. */
  datatype State = State(cap: nat, held: int, wg: int, runs: map<SpawnId, Spawned>)

  datatype Event =
    | Call(r: SpawnId)
    | Gate(r: SpawnId)
    | Add(r: SpawnId)
    | StartBeat(r: SpawnId)
    | Expire(r: SpawnId)
    | EndBeat(r: SpawnId)
    | WorkReturns(r: SpawnId)
    | Join(r: SpawnId)
    | Release(r: SpawnId)
    | Done(r: SpawnId)

  function To(s: State, r: SpawnId, phase: Phase): State
    requires r in s.runs
  {
    s.(runs := s.runs[r := s.runs[r].(phase := phase)])
  }

  ghost predicate Step(s: State, e: Event, s': State) {
    var r := e.r;
    if e.Call? then r !in s.runs && s' == s.(runs := s.runs[r := Spawned(Called, NotStarted, false)])
    else
      && r in s.runs
      && var run := s.runs[r];
      match e
      case Call(_) => false
      case Gate(_) =>
        && run.phase == Called
        && s' == if s.cap == 0 then To(s, r, Admitted)
                 else if s.held < s.cap then To(s, r, Admitted).(held := s.held + 1)
                 else To(s, r, Rejected)
      case Add(_) => run.phase == Admitted && s' == To(s, r, Tracked).(wg := s.wg + 1)
      case StartBeat(_) =>
        run.phase == Tracked && s' == s.(runs := s.runs[r := run.(phase := Working, beat := Alive)])
      case Expire(_) => s' == s.(runs := s.runs[r := run.(expired := true)])
      case EndBeat(_) =>
        run.beat == Alive && (run.expired || run.phase == Stopping) && s' == s.(runs := s.runs[r := run.(beat := Dead)])
      case WorkReturns(_) => run.phase == Working && s' == To(s, r, Stopping)
      case Join(_) => run.phase == Stopping && run.beat == Dead && s' == To(s, r, Joined)
      case Release(_) =>
        run.phase == Joined && s' == To(s, r, Released).(held := if s.cap == 0 then s.held else s.held - 1)
      case Done(_) => run.phase == Released && s' == To(s, r, Finished).(wg := s.wg - 1)
  }

  // ---------------------------------------------------------------------------- invariant

  predicate HasPermit(p: Phase) { p == Admitted || p == Tracked || p == Working || p == Stopping || p == Joined }

  predicate IsCounted(p: Phase) { p == Tracked || p == Working || p == Stopping || p == Joined || p == Released }

  ghost function Holders(s: State): set<SpawnId> { set r | r in s.runs && HasPermit(s.runs[r].phase) }

  ghost function Counted(s: State): set<SpawnId> { set r | r in s.runs && IsCounted(s.runs[r].phase) }

  /** A run's heartbeat goroutine lives only while its outer goroutine waits for it. */
  predicate BeatOk(run: Spawned) {
    && (run.beat == Alive ==> run.phase == Working || run.phase == Stopping)
    && (run.phase == Working || run.phase == Stopping ==> run.beat != NotStarted)
  }

  ghost predicate Inv(s: State) {
    && s.held == (if s.cap == 0 then 0 else |Holders(s)|) && s.wg == |Counted(s)|
    && (s.cap > 0 ==> s.held <= s.cap)
    && forall r | r in s.runs :: BeatOk(s.runs[r])
  }

  lemma OneMoreOrLess(a: set<SpawnId>, b: set<SpawnId>, r: SpawnId)
    requires b == a + {r} || b == a - {r}
    ensures |b| == |a| + (if r in b && r !in a then 1 else if r in a && r !in b then -1 else 0)
  {
    if r in a {
      assert a + {r} == a;
    } else {
      assert a - {r} == a;
    }
  }

  lemma HoldersChange(s: State, s': State, r: SpawnId)
    requires r in s'.runs && s'.runs == s.runs[r := s'.runs[r]]
    ensures var had, has := r in s.runs && HasPermit(s.runs[r].phase), HasPermit(s'.runs[r].phase);
            |Holders(s')| == |Holders(s)| + (if has && !had then 1 else if had && !has then -1 else 0)
  {
    assert Holders(s') == if HasPermit(s'.runs[r].phase) then Holders(s) + {r} else Holders(s) - {r};
    OneMoreOrLess(Holders(s), Holders(s'), r);
  }

  lemma CountedChange(s: State, s': State, r: SpawnId)
    requires r in s'.runs && s'.runs == s.runs[r := s'.runs[r]]
    ensures var had, has := r in s.runs && IsCounted(s.runs[r].phase), IsCounted(s'.runs[r].phase);
            |Counted(s')| == |Counted(s)| + (if has && !had then 1 else if had && !has then -1 else 0)
  {
    assert Counted(s') == if IsCounted(s'.runs[r].phase) then Counted(s) + {r} else Counted(s) - {r};
    OneMoreOrLess(Counted(s), Counted(s'), r);
  }

  lemma StepChangesOne(s: State, e: Event, s': State)
    requires Step(s, e, s')
    ensures e.r in s'.runs && s'.runs == s.runs[e.r := s'.runs[e.r]] && s'.cap == s.cap
  {
  }

  lemma StepKeepsInv(s: State, e: Event, s': State)
    requires Inv(s) && Step(s, e, s')
    ensures Inv(s')
  {
    StepChangesOne(s, e, s');
    HoldersChange(s, s', e.r);
    CountedChange(s, s', e.r);
    hide Holders, Counted;
    assert e.r in s.runs ==> BeatOk(s.runs[e.r]);
    assert BeatOk(s'.runs[e.r]);
  }

  /** No run gets stuck: one that is neither turned away nor finished can take its next step, without waiting for its
      deadline and whatever the other runs do. */
  lemma NoStuckRun(s: State, r: SpawnId) returns (e: Event, s': State)
    requires Inv(s) && r in s.runs && s.runs[r].phase != Rejected && s.runs[r].phase != Finished
    ensures e.r == r && !e.Expire? && Step(s, e, s')
  {
    hide Holders, Counted;
    var run := s.runs[r];
    assert BeatOk(run);
    match run.phase
    case Called =>
      e := Gate(r);
      s' := if s.cap == 0 then To(s, r, Admitted)
            else if s.held < s.cap then To(s, r, Admitted).(held := s.held + 1)
            else To(s, r, Rejected);
    case Admitted => e, s' := Add(r), To(s, r, Tracked).(wg := s.wg + 1);
    case Tracked => e, s' := StartBeat(r), s.(runs := s.runs[r := run.(phase := Working, beat := Alive)]);
    case Working => e, s' := WorkReturns(r), To(s, r, Stopping);
    case Stopping =>
      if run.beat == Dead {
        e, s' := Join(r), To(s, r, Joined);
      } else {
        e, s' := EndBeat(r), s.(runs := s.runs[r := run.(beat := Dead)]);
      }
    case Joined => e, s' := Release(r), To(s, r, Released).(held := if s.cap == 0 then s.held else s.held - 1);
    case Released => e, s' := Event.Done(r), To(s, r, Finished).(wg := s.wg - 1);
  }

  /** A spawn turned away at the gate changes nothing else, and is turned away only at capacity. */
  lemma RejectionChangesNothing(s: State, e: Event, s': State)
    requires Inv(s) && Step(s, e, s') && s'.runs[e.r].phase == Rejected && !e.Expire?
    ensures s'.held == s.held && s'.wg == s.wg && forall q | q in s.runs && q != e.r :: s'.runs[q] == s.runs[q]
    ensures 0 < s.cap == |Holders(s)|
  {
  }

  ghost predicate IsRun(cap: nat, states: seq<State>, events: seq<Event>) {
    && |states| == |events| + 1 && states[0] == State(cap, 0, 0, map[])
    && forall i | 0 <= i < |events| :: Step(states[i], events[i], states[i + 1])
  }

  /** In every interleaving: permits held are exactly the admitted, unreleased runs and never exceed the cap,
      and the wait group counts exactly the goroutines that have not called Done. */
  lemma {:induction false} InvThroughout(cap: nat, states: seq<State>, events: seq<Event>, i: nat)
    requires IsRun(cap, states, events) && i <= |events|
    ensures Inv(states[i]) && states[i].cap == cap
  {
    if i == 0 {
      assert Holders(states[0]) == {} && Counted(states[0]) == {};
    } else {
      hide Step, Inv;
      InvThroughout(cap, states, events, i - 1);
      StepKeepsInv(states[i - 1], events[i - 1], states[i]);
      StepChangesOne(states[i - 1], events[i - 1], states[i]);
    }
  }

  // ------------------------------------------------------------------ draining

  /** When the wait group is at zero no heartbeat goroutine is alive, and the only permits still held belong
      to spawns between the gate and wg.Add: no permit is held exactly when there is no such spawn. */
  lemma DrainedIff(cap: nat, states: seq<State>, events: seq<Event>, i: nat)
    requires IsRun(cap, states, events) && i <= |events| && states[i].wg == 0
    ensures forall r | r in states[i].runs :: states[i].runs[r].beat != Alive
    ensures cap > 0 ==> (states[i].held == 0 <==> forall r | r in states[i].runs :: states[i].runs[r].phase != Admitted)
  {
    hide Step;
    InvThroughout(cap, states, events, i);
    var s := states[i];
    NobodyCounted(s);
    if forall r | r in s.runs :: s.runs[r].phase != Admitted {
      assert Holders(s) == {};
    } else {
      var r :| r in s.runs && s.runs[r].phase == Admitted;
      assert r in Holders(s);
    }
  }

  lemma NobodyCounted(s: State)
    requires Inv(s) && s.wg == 0
    ensures forall r | r in s.runs :: !IsCounted(s.runs[r].phase) && s.runs[r].beat != Alive
  {
    forall r | r in s.runs ensures !IsCounted(s.runs[r].phase) && s.runs[r].beat != Alive {
      assert BeatOk(s.runs[r]);
      assert Counted(s) == {};
      assert r !in Counted(s);
    }
  }

  /** The gap is real: two steps into the first spawn a permit is held while the wait group is at zero. */
  lemma PermitWithoutWaitGroup(cap: nat, r: SpawnId)
    requires cap > 0
    ensures exists states: seq<State>, events: seq<Event> ::
              IsRun(cap, states, events) && |events| == 2 && states[2].wg == 0 && states[2].held == 1
  {
    var s0 := State(cap, 0, 0, map[]);
    var s1 := s0.(runs := s0.runs[r := Spawned(Called, NotStarted, false)]);
    var s2 := To(s1, r, Admitted).(held := 1);
    assert Step(s0, Call(r), s1) && Step(s1, Gate(r), s2);
    assert IsRun(cap, [s0, s1, s2], [Call(r), Gate(r)]);
    assert [s0, s1, s2][2].wg == 0 && [s0, s1, s2][2].held == 1;
  }

  // ------------------------------------------------------------------ one release per permit

  ghost function Gates(states: seq<State>, events: seq<Event>, r: SpawnId, i: nat): nat
    requires i <= |events| && |states| == |events| + 1
  {
    if i == 0 then 0
    else Gates(states, events, r, i - 1)
         + (if events[i - 1] == Gate(r) && PhaseOf(states[i], r) == Admitted then 1 else 0)
  }

  ghost function Releases(events: seq<Event>, r: SpawnId, i: nat): nat
    requires i <= |events|
  {
    if i == 0 then 0 else Releases(events, r, i - 1) + (if events[i - 1] == Release(r) then 1 else 0)
  }

  predicate WasReleased(p: Phase) { p == Released || p == Finished }

  function PhaseOf(s: State, r: SpawnId): Phase { if r in s.runs then s.runs[r].phase else Called }

  predicate WasAdmitted(p: Phase) { HasPermit(p) || WasReleased(p) }

  lemma StepAdmits(s: State, e: Event, s': State, r: SpawnId)
    requires Step(s, e, s')
    ensures WasAdmitted(PhaseOf(s', r)) <==> WasAdmitted(PhaseOf(s, r)) || (e == Gate(r) && PhaseOf(s', r) == Admitted)
    ensures e == Gate(r) && PhaseOf(s', r) == Admitted ==> !WasAdmitted(PhaseOf(s, r))
  {
  }

  lemma StepReleases(s: State, e: Event, s': State, r: SpawnId)
    requires Step(s, e, s')
    ensures WasReleased(PhaseOf(s', r)) <==> WasReleased(PhaseOf(s, r)) || e == Release(r)
    ensures e == Release(r) ==> !WasReleased(PhaseOf(s, r))
  {
  }

  /** Every admitted run takes one permit and gives it back once, before it calls wg.Done. */
  lemma {:induction false} ReleasedOnce(cap: nat, states: seq<State>, events: seq<Event>, r: SpawnId, i: nat)
    requires IsRun(cap, states, events) && i <= |events|
    ensures Gates(states, events, r, i) == (if WasAdmitted(PhaseOf(states[i], r)) then 1 else 0)
    ensures Releases(events, r, i) == (if WasReleased(PhaseOf(states[i], r)) then 1 else 0)
  {
    if i > 0 {
      hide Step, WasAdmitted, WasReleased, PhaseOf;
      ReleasedOnce(cap, states, events, r, i - 1);
      assert Step(states[i - 1], events[i - 1], states[i]) by {
        hide Gates, Releases;
      }
      hide IsRun;
      StepAdmits(states[i - 1], events[i - 1], states[i], r);
      StepReleases(states[i - 1], events[i - 1], states[i], r);
    }
  }
}
