/** Whole editing sessions: every draft is a valid DAG, stage ids are never reused, undo is exact up to its limit. */
module DagSessions {
  import opened Basics
  import opened Graphs
  import opened Text
  import opened DagValidate
  import opened DagEditor

  /** What the page offers: new stages follow an existing stage or none. */
  ghost predicate Offered(s: State, a: Action) {
    a.Add? ==> a.from == "" || a.from in Ids(s.graph)
  }

  /** states[i] is the editor before action i, states[i + 1] after it. */
  ghost predicate Session(states: seq<State>, actions: seq<Action>) {
    && |states| == |actions| + 1
    && forall i | 0 <= i < |actions| ::
         Usable(states[i]) && Offered(states[i], actions[i]) && states[i + 1] == Apply(states[i], actions[i])
  }

  /** No id of the form stage-n with n beyond the counter. */
  ghost predicate Counted(g: Graph, counter: nat) { forall n: nat | StageId(n) in Ids(g) :: n <= counter }

  ghost predicate Sound(g: Graph, counter: nat) { ValidDag(g) && Counted(g, counter) }

  ghost predicate Good(s: State) {
    && s.selected in Ids(s.graph) && Sound(s.graph, s.counter)
    && (forall g | g in s.history :: Sound(g, s.counter)) && |s.history| <= 30
  }

  // --------------------------------------------------------------- single edits

  lemma StageIdInjective(a: nat, b: nat)
    requires StageId(a) == StageId(b)
    ensures a == b
  {
    assert StageId(a)[6..] == Itoa(a) && StageId(b)[6..] == Itoa(b);
    ItoaInjective(a, b);
  }

  lemma IdsSnoc(g: Graph, n: Stage, es: seq<Edge>)
    ensures Ids(Graph(g.nodes + [n], es)) == Ids(g) + {n.id}
  {
    var g' := Graph(g.nodes + [n], es);
    assert g'.nodes[|g.nodes|] == n;
    assert forall m :: m in g'.nodes <==> m in g.nodes || m == n;
  }

  lemma DistinctSnoc(s: seq<Stage>, n: Stage)
    requires DistinctStages(s) && forall m | m in s :: m.id != n.id
    ensures DistinctStages(s + [n])
  {
    assert forall i | 0 <= i < |s| :: s[i] in s;
  }

  lemma {:induction false} WithoutStageDistinct(nodes: seq<Stage>, id: string)
    requires DistinctStages(nodes)
    ensures DistinctStages(WithoutStage(nodes, id))
  {
    if nodes != [] {
      var init, last := nodes[..|nodes| - 1], nodes[|nodes| - 1];
      WithoutStageDistinct(init, id);
      forall n | n in init ensures n.id != last.id {
        var k :| 0 <= k < |init| && init[k] == n;
        assert nodes[k].id != nodes[|nodes| - 1].id;
      }
      hide DistinctStages;
      if last.id != id {
        DistinctSnoc(WithoutStage(init, id), last);
      }
    }
  }

  lemma NoRepeatsSnoc(es: seq<Edge>, e: Edge)
    requires NoRepeats(es)
    ensures NoRepeats(es + [e]) <==> e !in es
  {
    if e in es {
      var i :| 0 <= i < |es| && es[i] == e;
      assert (es + [e])[i] == (es + [e])[|es|];
    }
  }

  lemma NoRepeatsInit(es: seq<Edge>)
    requires NoRepeats(es) && es != []
    ensures NoRepeats(es[..|es| - 1]) && es[|es| - 1] !in es[..|es| - 1]
  {
  }

  lemma {:induction false} WithoutEdgesNoRepeats(es: seq<Edge>, id: string)
    requires NoRepeats(es)
    ensures NoRepeats(WithoutEdgesAt(es, id))
  {
    if es != [] {
      var init, e := es[..|es| - 1], es[|es| - 1];
      NoRepeatsInit(es);
      hide NoRepeats;
      WithoutEdgesNoRepeats(init, id);
      if e.0 == id || e.1 == id {
        assert WithoutEdgesAt(es, id) == WithoutEdgesAt(init, id);
      } else {
        NoRepeatsSnoc(WithoutEdgesAt(init, id), e);
      }
    }
  }

  lemma {:induction false} WithoutEdgeNoRepeats(es: seq<Edge>, d: Edge)
    requires NoRepeats(es)
    ensures NoRepeats(WithoutEdge(es, d))
  {
    if es != [] {
      var init, e := es[..|es| - 1], es[|es| - 1];
      NoRepeatsInit(es);
      hide NoRepeats;
      WithoutEdgeNoRepeats(init, d);
      if e == d {
        assert WithoutEdge(es, d) == WithoutEdge(init, d);
      } else {
        NoRepeatsSnoc(WithoutEdge(init, d), e);
      }
    }
  }

  /** Adding a stage under an unused id, after an existing stage or none, keeps the DAG. */
  lemma AddedIsDag(g: Graph, n: Stage, from: string)
    requires ValidDag(g) && n.id !in Ids(g) && (from == "" || from in Ids(g))
    ensures ValidDag(Added(g, n, from)) && Ids(Added(g, n, from)) == Ids(g) + {n.id}
  {
    hide Acyclic, NoRepeats, DistinctStages;
    var g' := Added(g, n, from);
    IdsSnoc(g, n, g'.edges);
    DistinctSnoc(g.nodes, n) by {
      assert forall m | m in g.nodes :: m.id in Ids(g);
    }
    if from != "" {
      assert (from, n.id) !in g.edges;
      assert forall e | e in g.edges :: e.0 in Ids(g);
      hide Ids;
      NoRepeatsSnoc(g.edges, (from, n.id));
      NoWayOut(g.edges, n.id, from);
      EdgeKeepsAcyclic(g.edges, (from, n.id));
    }
  }

  lemma RemovedIds(g: Graph, id: string)
    ensures Ids(Removed(g, id)) == Ids(g) - {id}
  {
    var g' := Removed(g, id);
    forall x ensures x in Ids(g') <==> x in Ids(g) - {id} {
      if x in Ids(g) - {id} {
        var n :| n in g.nodes && n.id == x;
        assert n in g'.nodes;
      }
    }
  }

  lemma RemovedEndpoints(g: Graph, id: string)
    requires EndpointsIn(g.edges, Ids(g))
    ensures EndpointsIn(Removed(g, id).edges, Ids(g) - {id})
  {
    hide Ids;
  }

  lemma RemovedIsDag(g: Graph, id: string)
    requires ValidDag(g) && |g.nodes| > 1
    ensures ValidDag(Removed(g, id)) && Ids(Removed(g, id)) == Ids(g) - {id}
  {
    hide Acyclic, NoRepeats, EndpointsIn, Ids, WithoutStage, WithoutEdgesAt;
    SomeOther(g, id);
    WithoutStageDistinct(g.nodes, id);
    WithoutEdgesNoRepeats(g.edges, id);
    SubgraphAcyclic(g.edges, WithoutEdgesAt(g.edges, id));
    RemovedIds(g, id);
    RemovedEndpoints(g, id);
  }

  lemma WithoutEdgeIsDag(g: Graph, e: Edge)
    requires ValidDag(g)
    ensures ValidDag(g.(edges := WithoutEdge(g.edges, e)))
  {
    WithoutEdgeNoRepeats(g.edges, e);
    hide Acyclic, NoRepeats;
    SubgraphAcyclic(g.edges, WithoutEdge(g.edges, e));
    assert Ids(g.(edges := WithoutEdge(g.edges, e))) == Ids(g);
  }

  lemma RenamedIsDag(g: Graph, i: nat, name: string)
    requires ValidDag(g) && i < |g.nodes|
    ensures var g' := g.(nodes := RenameStage(g.nodes, i, name)); ValidDag(g') && Ids(g') == Ids(g)
  {
    hide Acyclic;
    var g' := g.(nodes := RenameStage(g.nodes, i, name));
    forall x | x in Ids(g) ensures x in Ids(g') {
      var k :| 0 <= k < |g.nodes| && g.nodes[k].id == x;
      assert g'.nodes[k].id == x && g'.nodes[k] in g'.nodes;
    }
    forall x | x in Ids(g') ensures x in Ids(g) {
      var k :| 0 <= k < |g'.nodes| && g'.nodes[k].id == x;
      assert g.nodes[k].id == x && g.nodes[k] in g.nodes;
    }
  }

  lemma ConnectedIsDag(g: Graph, e: Edge)
    requires Accepted(Connected(g, e))
    ensures ValidDag(Connected(g, e)) && Ids(Connected(g, e)) == Ids(g)
  {
    AcceptsIffValid(Connected(g, e));
  }

  /** With plain ids, connecting is refused exactly for a missing or wrong stage, a repeated edge or a cycle:
      when the selected stage already leads to the other one. */
  lemma ConnectAcceptedIff(g: Graph, e: Edge)
    requires ValidDag(g) && forall v | v in Ids(g) :: Plain(v)
    ensures Accepted(Connected(g, e)) <==> e.0 in Ids(g) && e.1 in Ids(g) && e !in g.edges && !Path(g.edges, e.1, e.0)
  {
    hide Acyclic, Path, Accepted, Plain, HasProblem;
    var g' := Connected(g, e);
    AcceptedIff(g');
    assert Ids(g') == Ids(g);
    assert g'.edges[|g.edges|] == e;
    if e.0 in Ids(g) && e.1 in Ids(g) {
      PlainKeys(g'.edges);
      EdgeKeepsAcyclic(g.edges, e);
      NoRepeatsSnoc(g.edges, e);
    }
  }

  lemma AcceptedIff(g: Graph)
    ensures Accepted(g) <==> ValidDag(g) && KeysDistinct(g.edges)
  {
    AcceptsIffValid(g);
  }

  // ------------------------------------------------------------- every draft is a DAG

  lemma CountedMore(g: Graph, c: nat, c': nat)
    requires Counted(g, c) && c <= c'
    ensures Counted(g, c')
  {
  }

  lemma FreshId(g: Graph, counter: nat)
    requires Counted(g, counter)
    ensures StageId(counter + 1) !in Ids(g)
  {
  }

  lemma AddedCounted(g: Graph, g': Graph, counter: nat)
    requires Counted(g, counter) && Ids(g') == Ids(g) + {StageId(counter + 1)}
    ensures Counted(g', counter + 1)
  {
    forall n: nat | StageId(n) in Ids(g') ensures n <= counter + 1 {
      if StageId(n) !in Ids(g) {
        StageIdInjective(n, counter + 1);
      }
    }
  }

  lemma FewerCounted(g: Graph, g': Graph, counter: nat)
    requires Counted(g, counter) && Ids(g') <= Ids(g)
    ensures Counted(g', counter)
  {
  }

  /** The draft after an edit is sound; an added stage has an id no current or remembered draft uses. */
  lemma EditIsSound(s: State, a: Action)
    requires Good(s) && Usable(s) && Offered(s, a) && Edits(s, a)
    ensures var s' := Apply(s, a); Sound(s'.graph, s'.counter) && s'.selected in Ids(s'.graph)
    ensures Apply(s, a).history == Remembered(s.history, s.graph)
    ensures Apply(s, a).counter == s.counter + (if a.Add? then 1 else 0)
  {
    hide ValidDag, Counted, StageId, Remembered, Accepted;
    var g := s.graph;
    match a
    case Connect(from) =>
      ConnectedIsDag(g, (from, s.selected));
      FewerCounted(g, Connected(g, (from, s.selected)), s.counter);
    case Add(name, kind, from) =>
      var n := Stage(StageId(s.counter + 1), name, kind);
      FreshId(g, s.counter);
      AddedIsDag(g, n, from);
      AddedCounted(g, Added(g, n, from), s.counter);
    case Remove =>
      var g' := Removed(g, s.selected);
      RemovedIsDag(g, s.selected);
      FewerCounted(g, g', s.counter);
      DagHasStage(g', s.counter);
    case RemoveDependency(from) =>
      WithoutEdgeIsDag(g, (from, s.selected));
      FewerCounted(g, g.(edges := WithoutEdge(g.edges, (from, s.selected))), s.counter);
    case Rename(name) =>
      var i := Shown(g.nodes, s.selected);
      RenamedIsDag(g, i, name);
      FewerCounted(g, g.(nodes := RenameStage(g.nodes, i, name)), s.counter);
    case _ =>
  }

  lemma DagHasStage(g: Graph, counter: nat)
    requires Sound(g, counter)
    ensures g.nodes != [] && g.nodes[0].id in Ids(g)
  {
  }

  lemma StepKeepsGood(s: State, a: Action)
    requires Good(s) && Usable(s) && Offered(s, a)
    ensures Good(Apply(s, a)) && s.counter <= Apply(s, a).counter
  {
    var s' := Apply(s, a);
    if Edits(s, a) {
      EditKeepsGood(s, a);
    } else {
      hide Sound, Accepted, Edits;
      if a.Undo? && s.history != [] {
        assert s'.graph in s.history;
        DagHasStage(s'.graph, s'.counter);
        FoundIsId(s'.graph, s.selected);
      }
    }
  }

  lemma FoundIsId(g: Graph, id: string)
    ensures Find(g.nodes, id) < |g.nodes| ==> id in Ids(g)
  {
    if Find(g.nodes, id) < |g.nodes| {
      assert g.nodes[Find(g.nodes, id)] in g.nodes;
    }
  }

  lemma EditKeepsGood(s: State, a: Action)
    requires Good(s) && Usable(s) && Offered(s, a) && Edits(s, a)
    ensures Good(Apply(s, a))
  {
    var s' := Apply(s, a);
    EditIsSound(s, a);
    hide Apply, ValidDag, Counted, Edits;
    forall g | g in s'.history ensures Sound(g, s'.counter) {
      assert g in s.history || g == s.graph;
      CountedMore(g, s.counter, s'.counter);
    }
  }

  /** Every draft of a session, and every draft it can restore, is a valid DAG. */
  lemma {:induction false} SessionStaysGood(states: seq<State>, actions: seq<Action>, i: nat)
    requires Session(states, actions) && i <= |actions| && Good(states[0])
    ensures Good(states[i])
  {
    hide Good, Apply, Usable;
    if i > 0 {
      SessionStaysGood(states, actions, i - 1);
      StepKeepsGood(states[i - 1], actions[i - 1]);
    }
  }

  /** How a session starts, on a valid DAG none of whose ids look like stage-n. */
  lemma OpeningIsGood(g: Graph, selected: string)
    requires ValidDag(g) && forall n: nat :: StageId(n) !in Ids(g)
    ensures Good(State(g, [], 0, g.nodes[Shown(g.nodes, selected)].id, g))
  {
    assert g.nodes[Shown(g.nodes, selected)] in g.nodes;
  }

  lemma {:induction false} CounterAscends(states: seq<State>, actions: seq<Action>, i: nat, j: nat)
    requires Session(states, actions) && i <= j <= |actions| && Good(states[0])
    ensures states[i].counter <= states[j].counter
    decreases j
  {
    hide Good, Apply, Usable;
    if i < j {
      CounterAscends(states, actions, i, j - 1);
      SessionStaysGood(states, actions, j - 1);
      StepKeepsGood(states[j - 1], actions[j - 1]);
    }
  }

  /** Stage ids are never reused, not even when the stage that had them was removed or undone. */
  lemma AddedIdsDiffer(states: seq<State>, actions: seq<Action>, i: nat, j: nat)
    requires Session(states, actions) && i < j < |actions| && Good(states[0])
    requires actions[i].Add? && actions[i].name != "" && actions[j].Add? && actions[j].name != ""
    ensures states[i + 1].selected != states[j + 1].selected
    ensures states[j + 1].selected !in Ids(states[j].graph)
    ensures forall g | g in states[j].history :: states[j + 1].selected !in Ids(g)
  {
    hide ValidDag, StageId;
    SessionStaysGood(states, actions, i);
    SessionStaysGood(states, actions, j);
    CounterAscends(states, actions, i + 1, j);
    assert states[i + 1].selected == StageId(states[i].counter + 1);
    assert states[j + 1].selected == StageId(states[j].counter + 1);
    if states[i + 1].selected == states[j + 1].selected {
      StageIdInjective(states[i].counter + 1, states[j].counter + 1);
    }
  }

  // --------------------------------------------------------------------------- undo

  /** How far above its starting point a stretch of the session is, in edits that are not undone. */
  ghost function Depth(states: seq<State>, actions: seq<Action>, i: nat): int
    requires i <= |actions| <= |states|
  {
    if i == 0 then 0
    else
      Depth(states, actions, i - 1)
      + (if Edits(states[i - 1], actions[i - 1]) then 1 else if actions[i - 1].Undo? then -1 else 0)
  }

  /** Where the starting draft is found while depth edits are not undone. */
  ghost predicate Held(g: Graph, s: State, depth: int) {
    0 <= depth <= |s.history| && g == if depth == 0 then s.graph else s.history[|s.history| - depth]
  }

  lemma StepHolds(g: Graph, s: State, a: Action, depth: int)
    requires Usable(s) && Held(g, s, depth) && |s.history| <= UNDO_LIMIT
    requires Edits(s, a) ==> depth < UNDO_LIMIT
    requires a.Undo? ==> 0 < depth
    ensures var s' := Apply(s, a);
            Held(g, s', depth + (if Edits(s, a) then 1 else if a.Undo? then -1 else 0)) && |s'.history| <= UNDO_LIMIT
  {
    if Edits(s, a) {
      hide Edits, Apply;
      EditRemembers(s, a);
      PushHolds(g, s, Apply(s, a), depth);
    } else {
      hide Edits;
      if a.Undo? {
        PopHolds(g, s, Apply(s, a), depth);
      }
    }
  }

  lemma PushHolds(g: Graph, s: State, s': State, depth: int)
    requires Held(g, s, depth) && depth < UNDO_LIMIT && |s.history| <= UNDO_LIMIT
    requires s'.history == Remembered(s.history, s.graph)
    ensures Held(g, s', depth + 1) && |s'.history| <= UNDO_LIMIT
  {
  }

  lemma PopHolds(g: Graph, s: State, s': State, depth: int)
    requires Held(g, s, depth) && 0 < depth
    requires s'.graph == s.history[|s.history| - 1] && s'.history == s.history[..|s.history| - 1]
    ensures Held(g, s', depth - 1)
  {
  }

  lemma EditRemembers(s: State, a: Action)
    requires Usable(s) && Edits(s, a)
    ensures Apply(s, a).history == Remembered(s.history, s.graph)
  {
    hide Accepted;
  }

  lemma UndoIsNoEdit(s: State)
    ensures !Edits(s, Undo)
  {
  }

  /** Undo is exact: whenever as many edits have been undone as made, and never more than 30 were open
      at once, the draft is the one the stretch began with. */
  lemma {:induction false} BalancedEditsUndo(states: seq<State>, actions: seq<Action>, i: nat)
    requires Session(states, actions) && i <= |actions| && |states[0].history| <= 30
    requires forall k | 0 <= k <= i :: 0 <= Depth(states, actions, k) <= 30
    ensures Held(states[0].graph, states[i], Depth(states, actions, i)) && |states[i].history| <= 30
    ensures Depth(states, actions, i) == 0 ==> states[i].graph == states[0].graph
  {
    hide Apply, Edits, Usable;
    if i > 0 {
      BalancedEditsUndo(states, actions, i - 1);
      var depth := Depth(states, actions, i);
      assert 0 <= Depth(states, actions, i - 1);
      UndoIsNoEdit(states[i - 1]);
      StepHolds(states[0].graph, states[i - 1], actions[i - 1], Depth(states, actions, i - 1));
    }
  }

  ghost function Drafts(states: seq<State>): seq<Graph> {
    if states == [] then [] else Drafts(states[..|states| - 1]) + [states[|states| - 1].graph]
  }

  /** Only the last 30 drafts are kept: after any number of edits in a row the history is the last 30 of
      everything remembered, so what the 31st edit pushes out cannot be restored. */
  lemma {:induction false} HistoryIsLastThirty(states: seq<State>, actions: seq<Action>, i: nat)
    requires Session(states, actions) && i <= |actions| && |states[0].history| <= 30
    requires forall k | 0 <= k < i :: Edits(states[k], actions[k])
    ensures states[i].history == LastOf(states[0].history + Drafts(states[..i]), 30)
  {
    hide Apply, Edits, Usable;
    if i > 0 {
      HistoryIsLastThirty(states, actions, i - 1);
      EditRemembers(states[i - 1], actions[i - 1]);
      assert states[..i][..i - 1] == states[..i - 1];
      RememberedIsLast(states[0].history + Drafts(states[..i - 1]), states[i - 1].graph);
      assert states[0].history + Drafts(states[..i])
             == states[0].history + Drafts(states[..i - 1]) + [states[i - 1].graph];
    }
  }

  lemma RememberedIsLast(all: seq<Graph>, g: Graph)
    ensures Remembered(LastOf(all, UNDO_LIMIT), g) == LastOf(all + [g], UNDO_LIMIT)
  {
  }

  // --------------------------------------------------------------- sessions on plain ids

  ghost predicate AllPlain(g: Graph) { forall v | v in Ids(g) :: Plain(v) }

  ghost predicate PlainState(s: State) { AllPlain(s.graph) && forall g | g in s.history :: AllPlain(g) }

  lemma StageIdPlain(n: nat)
    ensures Plain(StageId(n))
  {
    assert AllDigits(Itoa(n));
    forall i | 0 <= i < |StageId(n)| ensures StageId(n)[i] != '>' {
      if i >= 6 {
        assert StageId(n)[i] == Itoa(n)[i - 6];
      }
    }
  }

  lemma StepKeepsPlain(s: State, a: Action)
    requires Good(s) && Usable(s) && Offered(s, a) && PlainState(s)
    ensures PlainState(Apply(s, a))
  {
    hide ValidDag, Counted, StageId, Plain, Accepted;
    var s' := Apply(s, a);
    if Edits(s, a) {
      EditIds(s, a);
      StageIdPlain(s.counter + 1);
      EditRemembers(s, a);
      assert forall g | g in s'.history :: g in s.history || g == s.graph;
    }
  }

  lemma EditIds(s: State, a: Action)
    requires Good(s) && Usable(s) && Offered(s, a) && Edits(s, a)
    ensures Ids(Apply(s, a).graph) <= Ids(s.graph) + {StageId(s.counter + 1)}
  {
    hide ValidDag, Counted, StageId, Remembered, Accepted;
    var g := s.graph;
    match a
    case Add(name, kind, from) =>
      FreshId(g, s.counter);
      AddedIsDag(g, Stage(StageId(s.counter + 1), name, kind), from);
    case Remove =>
      RemovedIsDag(g, s.selected);
    case Rename(name) =>
      RenamedIsDag(g, Shown(g.nodes, s.selected), name);
    case Connect(from) =>
      ConnectedIsDag(g, (from, s.selected));
    case _ =>
  }

  /** When the opening ids hold no '>', validate accepts every draft, so saving always works. */
  lemma {:induction false} EveryDraftAccepted(states: seq<State>, actions: seq<Action>, i: nat)
    requires Session(states, actions) && i <= |actions| && Good(states[0]) && PlainState(states[0])
    ensures PlainState(states[i]) && Accepted(states[i].graph)
  {
    hide Apply, Accepted, Usable, Plain;
    SessionStaysGood(states, actions, i);
    if i > 0 {
      EveryDraftAccepted(states, actions, i - 1);
      SessionStaysGood(states, actions, i - 1);
      StepKeepsPlain(states[i - 1], actions[i - 1]);
    }
    PlainKeys(states[i].graph.edges);
    AcceptedIff(states[i].graph);
  }
}
