/** backend/internal/runstate/{run,stage,transition}.go: the lifecycles of runs and stages. */
module RunState {
  import opened Wrappers
  import opened StateMachine

  const PENDING := "pending"
  const RUNNING := "running"
  const SUCCEEDED := "success"
  const FAILED := "failed"
  const CANCELLED := "cancelled"
  const SKIPPED := "skipped"

  const START := "start"
  const SUCCEED := "succeed"
  const FAIL := "fail"
  const CANCEL := "cancel"
  const SKIP := "skip"

  lemma NamesDiffer()
    ensures PENDING != RUNNING && PENDING != SUCCEEDED && PENDING != FAILED && PENDING != CANCELLED
            && PENDING != SKIPPED
    ensures RUNNING != SUCCEEDED && RUNNING != FAILED && RUNNING != CANCELLED && RUNNING != SKIPPED
    ensures SUCCEEDED != FAILED && SUCCEEDED != CANCELLED && SUCCEEDED != SKIPPED
    ensures FAILED != CANCELLED && FAILED != SKIPPED && CANCELLED != SKIPPED
    ensures START != SUCCEED && START != FAIL && START != CANCEL && START != SKIP
    ensures SUCCEED != FAIL && SUCCEED != CANCEL && SUCCEED != SKIP
    ensures FAIL != CANCEL && FAIL != SKIP && CANCEL != SKIP
  {
    assert PENDING[0] == 'p' && RUNNING[0] == 'r' && SUCCEEDED[1] == 'u' && FAILED[0] == 'f' && CANCELLED[0] == 'c';
    assert SKIPPED[1] == 'k' && SUCCEEDED[0] == 's' && SKIPPED[0] == 's';
    assert START[1] == 't' && SUCCEED[1] == 'u' && SKIP[1] == 'k' && FAIL[0] == 'f' && CANCEL[0] == 'c';
    assert START[0] == 's' && SUCCEED[0] == 's' && SKIP[0] == 's';
  }

  ghost function RunTable(): Table {
    map[(PENDING, START) := RUNNING, (PENDING, CANCEL) := CANCELLED, (RUNNING, SUCCEED) := SUCCEEDED,
        (RUNNING, FAIL) := FAILED, (RUNNING, CANCEL) := CANCELLED]
  }

  ghost function StageTable(): Table { RunTable()[(PENDING, SKIP) := SKIPPED] }

  method NewRunBuilder() returns (b: Builder)
    ensures fresh(b) && b.table == RunTable()
  {
    NamesDiffer();
    b := new Builder();
    b.Allow(Transition(PENDING, START, RUNNING));
    b.Allow(Transition(PENDING, CANCEL, CANCELLED));
    b.Allow(Transition(RUNNING, SUCCEED, SUCCEEDED));
    b.Allow(Transition(RUNNING, FAIL, FAILED));
    b.Allow(Transition(RUNNING, CANCEL, CANCELLED));
  }

  method NewStageBuilder() returns (b: Builder)
    ensures fresh(b) && b.table == StageTable()
  {
    NamesDiffer();
    b := new Builder();
    b.Allow(Transition(PENDING, START, RUNNING));
    b.Allow(Transition(PENDING, CANCEL, CANCELLED));
    b.Allow(Transition(PENDING, SKIP, SKIPPED));
    hide RunTable, StageTable;
    b.Allow(Transition(RUNNING, SUCCEED, SUCCEEDED));
    b.Allow(Transition(RUNNING, FAIL, FAILED));
    b.Allow(Transition(RUNNING, CANCEL, CANCELLED));
    StageTableIs();
  }

  lemma StageTableIs()
    ensures StageTable() == map[(PENDING, START) := RUNNING, (PENDING, CANCEL) := CANCELLED, (PENDING, SKIP) := SKIPPED,
                                (RUNNING, SUCCEED) := SUCCEEDED, (RUNNING, FAIL) := FAILED,
                                (RUNNING, CANCEL) := CANCELLED]
  {
    NamesDiffer();
  }

  predicate IsTerminal(s: Name) { s == SUCCEEDED || s == FAILED || s == CANCELLED || s == SKIPPED }

  /** TransitionRun: the new status, or the current one and an error (None). */
  function Transit(f: FSM, event: Name): (Name, bool) {
    var next := f.Apply(event);
    if next.None? then (f.current, false) else (next.value.current, true)
  }

  lemma TablesHaveNoSelfLoops()
    ensures NoSelfLoops(RunTable()) && NoSelfLoops(StageTable())
  {
    NamesDiffer();
  }

  /** A status changes exactly along a declared edge; CanTransitionRun foretells it. */
  lemma TransitFollowsTable(f: FSM, table: Table, event: Name)
    requires Describes(f.events, table) && (table == RunTable() || table == StageTable())
    ensures Transit(f, event) ==
              if (f.current, event) in table then (table[(f.current, event)], true) else (f.current, false)
    ensures f.Can(event) <==> Transit(f, event).1
  {
    hide RunTable, StageTable;
    TablesHaveNoSelfLoops();
    MachineFollowsTable(f, table, event);
  }

  // ------------------------------------------------------------------------- lifecycles

  lemma TerminalHasNoEdges(s: Name, event: Name)
    requires IsTerminal(s)
    ensures (s, event) !in RunTable() && (s, event) !in StageTable()
  {
    NamesDiffer();
  }

  /** A finished run or stage stays as it is, whatever happens to it. */
  lemma {:induction false} TerminalAbsorbs(s: Name, events: seq<Name>)
    requires IsTerminal(s)
    ensures Drive(RunTable(), s, events) == s && Drive(StageTable(), s, events) == s
  {
    hide RunTable, StageTable, IsTerminal;
    if events != [] {
      TerminalHasNoEdges(s, events[0]);
      TerminalAbsorbs(s, events[1..]);
    }
  }

  lemma NoRunEdgeToSkipped(s: Name, event: Name)
    ensures (s, event) in RunTable() ==> RunTable()[(s, event)] != SKIPPED
  {
    NamesDiffer();
  }

  /** No run is ever skipped. */
  lemma {:induction false} RunsAreNeverSkipped(s: Name, events: seq<Name>)
    requires s != SKIPPED
    ensures Drive(RunTable(), s, events) != SKIPPED
    decreases |events|
  {
    hide RunTable;
    if events != [] {
      NoRunEdgeToSkipped(s, events[0]);
      RunsAreNeverSkipped(if (s, events[0]) in RunTable() then RunTable()[(s, events[0])] else s, events[1..]);
    }
  }

  lemma EdgesAgree(s: Name, event: Name)
    ensures (s, event) in RunTable() <==> (s, event) in StageTable() && event != SKIP
    ensures (s, event) in RunTable() ==> RunTable()[(s, event)] == StageTable()[(s, event)]
  {
    NamesDiffer();
  }

  /** Run lifecycles are exactly the stage lifecycles without a skip, with the same states. */
  lemma {:induction false} RunTracesAreStageTraces(s: Name, events: seq<Name>)
    ensures Accept(RunTable(), s, events)
            == if SKIP in events then None else Accept(StageTable(), s, events)
    decreases |events|
  {
    hide RunTable, StageTable;
    if events != [] {
      assert events == [events[0]] + events[1..];
      EdgesAgree(s, events[0]);
      if (s, events[0]) in RunTable() {
        RunTracesAreStageTraces(RunTable()[(s, events[0])], events[1..]);
      }
    }
  }

  /** From pending, two events at most are ever accepted, and the second ends the lifecycle. */
  lemma LifecyclesAreShort(events: seq<Name>)
    requires Accept(StageTable(), PENDING, events).Some?
    ensures |events| <= 2
    ensures |events| == 2 ==> events[0] == START && IsTerminal(Accept(StageTable(), PENDING, events).value)
  {
    hide StageTable, IsTerminal;
    if |events| > 0 {
      var s1 := StageTable()[(PENDING, events[0])];
      EdgeFromPending(events[0]);
      var rest := events[1..];
      assert Accept(StageTable(), s1, rest).Some?;
      if |rest| > 0 {
        if IsTerminal(s1) {
          TerminalHasNoEdges(s1, rest[0]);
        }
        EdgeFromRunning(rest[0]);
        assert Accept(StageTable(), StageTable()[(s1, rest[0])], rest[1..]).Some?;
        if |rest| > 1 {
          TerminalHasNoEdges(StageTable()[(s1, rest[0])], rest[1..][0]);
        }
      }
    }
  }

  lemma EdgeFromPending(event: Name)
    requires (PENDING, event) in StageTable()
    ensures var s := StageTable()[(PENDING, event)]; IsTerminal(s) || (s == RUNNING && event == START)
  {
    NamesDiffer();
  }

  lemma EdgeFromRunning(event: Name)
    requires (RUNNING, event) in StageTable()
    ensures IsTerminal(StageTable()[(RUNNING, event)])
  {
    NamesDiffer();
  }

  lemma StageSteps(s: Name, event: Name)
    ensures s == "pending"
            ==> ((s, event) in StageTable() <==> event == "start" || event == "cancel" || event == "skip")
    ensures s == "running"
            ==> ((s, event) in StageTable() <==> event == "succeed" || event == "fail" || event == "cancel")
    ensures (s, event) in StageTable() && event == "start" ==> StageTable()[(s, event)] == "running"
    ensures (s, event) in StageTable() && event == "succeed" ==> StageTable()[(s, event)] == "success"
    ensures (s, event) in StageTable() && event == "fail" ==> StageTable()[(s, event)] == "failed"
    ensures (s, event) in StageTable() && event == "cancel" ==> StageTable()[(s, event)] == "cancelled"
    ensures (s, event) in StageTable() && event == "skip" ==> StageTable()[(s, event)] == "skipped"
  {
    NamesDiffer();
  }

  /** How a lifecycle can go, and where each ends. */
  ghost predicate Ends(events: seq<Name>, s: Name) {
    || (events == [] && s == "pending")
    || (events == ["start"] && s == "running")
    || (events == ["start", "succeed"] && s == "success")
    || (events == ["start", "fail"] && s == "failed")
    || ((events == ["cancel"] || events == ["start", "cancel"]) && s == "cancelled")
  }

  lemma TwoEvents(events: seq<Name>)
    requires |events| == 2
    ensures Accept(StageTable(), "pending", events).Some? ==>
              var s1 := StageTable()[("pending", events[0])];
              && ("pending", events[0]) in StageTable() && (s1, events[1]) in StageTable()
              && Accept(StageTable(), "pending", events) == Some(StageTable()[(s1, events[1])])
    ensures ("pending", events[0]) in StageTable() && (StageTable()[("pending", events[0])], events[1]) in StageTable()
            ==> Accept(StageTable(), "pending", events).Some?
  {
    hide StageTable;
    var rest := events[1..];
    if ("pending", events[0]) in StageTable() {
      var s1 := StageTable()[("pending", events[0])];
      assert Accept(StageTable(), "pending", events) == Accept(StageTable(), s1, rest);
      if (s1, rest[0]) in StageTable() {
        assert Accept(StageTable(), s1, rest) == Accept(StageTable(), StageTable()[(s1, rest[0])], rest[1..]);
      }
    }
  }

  /** From pending, exactly these event sequences are accepted by a stage, with these ends. */
  lemma StageLifecycles(events: seq<Name>, s: Name)
    ensures Accept(StageTable(), "pending", events) == Some(s)
            <==> Ends(events, s) || (events == ["skip"] && s == "skipped")
  {
    NamesDiffer();
    hide StageTable;
    if Accept(StageTable(), "pending", events).Some? {
      LifecyclesAreShort(events);
    }
    if |events| > 0 {
      StageSteps("pending", events[0]);
      if |events| == 2 {
        TwoEvents(events);
        StageSteps("running", events[1]);
        assert events == [events[0], events[1]];
      }
    }
  }

  /** The same for runs, which have no skip. */
  lemma RunLifecycles(events: seq<Name>, s: Name)
    ensures Accept(RunTable(), "pending", events) == Some(s) <==> Ends(events, s)
  {
    hide RunTable, StageTable;
    NamesDiffer();
    RunTracesAreStageTraces("pending", events);
    StageLifecycles(events, s);
  }
}
