/** website/workspace-dag.js:149 and 240-279: the editor's draft, its bounded undo history, and whole
    editing sessions. */
module DagEditor {
  import opened Graphs
  import opened Text
  import opened DagValidate

  const UNDO_LIMIT := 30

  datatype State = State(graph: Graph, history: seq<Graph>, counter: nat, selected: string, saved: Graph)

  /** Names arrive trimmed; from is the value of the form's select, "" when nothing is chosen. */
  datatype Action =
    | Connect(from: string)
    | Add(name: string, kind: string, from: string)
    | Remove
    | RemoveDependency(from: string)
    | Rename(name: string)
    | Undo
    | Save
    | Select(id: string)

  function StageId(n: nat): string { "stage-" + Itoa(n) }

  ghost predicate Accepted(g: Graph) { forall p :: !HasProblem(g, p) }

  // ------------------------------------------------------------------- list operations

  function WithoutStage(nodes: seq<Stage>, id: string): (r: seq<Stage>)
    ensures forall n :: n in r <==> n in nodes && n.id != id
  {
    if nodes == [] then []
    else WithoutStage(nodes[..|nodes| - 1], id) + (if nodes[|nodes| - 1].id == id then [] else [nodes[|nodes| - 1]])
  }

  /** Drops every edge that touches the stage id. */
  function WithoutEdgesAt(es: seq<Edge>, id: string): (r: seq<Edge>)
    ensures forall e :: e in r <==> e in es && e.0 != id && e.1 != id
  {
    if es == [] then []
    else
      var e := es[|es| - 1];
      WithoutEdgesAt(es[..|es| - 1], id) + (if e.0 == id || e.1 == id then [] else [e])
  }

  function WithoutEdge(es: seq<Edge>, d: Edge): (r: seq<Edge>)
    ensures forall e :: e in r <==> e in es && e != d
  {
    if es == [] then []
    else WithoutEdge(es[..|es| - 1], d) + (if es[|es| - 1] == d then [] else [es[|es| - 1]])
  }

  /** nodes.find(n => n.id === id), as a position; |nodes| when there is none. */
  function Find(nodes: seq<Stage>, id: string): (i: nat)
    ensures i <= |nodes| && (i < |nodes| ==> nodes[i].id == id)
    ensures forall j | 0 <= j < i :: nodes[j].id != id
  {
    if nodes == [] || nodes[0].id == id then 0 else 1 + Find(nodes[1..], id)
  }

  /** The stage the inspector shows: the selected one, or else the first. */
  function Shown(nodes: seq<Stage>, selected: string): (i: nat)
    requires nodes != []
    ensures i < |nodes|
  {
    var i := Find(nodes, selected);
    if i < |nodes| then i else 0
  }

  function RenameStage(nodes: seq<Stage>, i: nat, name: string): seq<Stage>
    requires i < |nodes|
  {
    nodes[i := nodes[i].(name := name)]
  }

  function Remembered(history: seq<Graph>, g: Graph): seq<Graph> {
    if |history| < UNDO_LIMIT then history + [g] else (history + [g])[1..]
  }

  // ---------------------------------------------------------------------- the edits

  /** The draft becomes g, and the draft before it can be restored. */
  function Edited(s: State, g: Graph): State { s.(graph := g, history := Remembered(s.history, s.graph)) }

  function Connected(g: Graph, e: Edge): Graph { g.(edges := g.edges + [e]) }

  function Added(g: Graph, n: Stage, from: string): Graph {
    Graph(g.nodes + [n], if from == "" then g.edges else g.edges + [(from, n.id)])
  }

  function Removed(g: Graph, id: string): Graph { Graph(WithoutStage(g.nodes, id), WithoutEdgesAt(g.edges, id)) }

  /** Whether the action is an edit that undo can take back. */
  ghost predicate Edits(s: State, a: Action) {
    match a
    case Connect(from) => from != "" && Accepted(Connected(s.graph, (from, s.selected)))
    case Add(name, _, _) => name != ""
    case Remove => |s.graph.nodes| > 1
    case RemoveDependency(_) => true
    case Rename(name) => name != ""
    case _ => false
  }

  /** The editor can show the draft, and every draft it may restore. */
  ghost predicate Usable(s: State) {
    s.graph.nodes != [] && s.selected in Ids(s.graph) && forall g | g in s.history :: g.nodes != []
  }

  ghost function Apply(s: State, a: Action): State
    requires Usable(s)
  {
    if a.Undo? && s.history != [] then
      var g := s.history[|s.history| - 1];
      s.(graph := g, history := s.history[..|s.history| - 1],
         selected := if Find(g.nodes, s.selected) < |g.nodes| then s.selected else g.nodes[0].id)
    else if a.Save? then (if Accepted(s.graph) then s.(saved := s.graph) else s)
    else if a.Select? then (if a.id in Ids(s.graph) then s.(selected := a.id) else s)
    else if !Edits(s, a) then s
    else
      match a
      case Connect(from) => Edited(s, Connected(s.graph, (from, s.selected)))
      case Add(name, kind, from) =>
        var id := StageId(s.counter + 1);
        Edited(s, Added(s.graph, Stage(id, name, kind), from)).(counter := s.counter + 1, selected := id)
      case Remove =>
        var rest := Removed(s.graph, s.selected);
        Edited(s, rest).(selected := if rest.nodes != [] then rest.nodes[0].id else s.selected)
      case RemoveDependency(from) => Edited(s, s.graph.(edges := WithoutEdge(s.graph.edges, (from, s.selected))))
      case Rename(name) =>
        Edited(s, s.graph.(nodes := RenameStage(s.graph.nodes, Shown(s.graph.nodes, s.selected), name)))
      case _ => s
  }

  // ------------------------------------------------------------------------ the editor

  class Editor {
    var graph: Graph
    var history: seq<Graph>
    var counter: nat
    var selected: string
    var saved: Graph

    ghost function View(): State
      reads this
    {
      State(graph, history, counter, selected, saved)
    }

    /** state(id) followed by the first refresh, which settles the selection. */
    constructor (g: Graph, selected: string)
      requires g.nodes != []
      ensures View() == State(g, [], 0, g.nodes[Shown(g.nodes, selected)].id, g)
    {
      graph := g;
      history := [];
      counter := 0;
      this.selected := g.nodes[Shown(g.nodes, selected)].id;
      saved := g;
    }

    method Remember()
      modifies this`history
      ensures history == Remembered(old(history), graph)
    {
      history := history + [graph];
      if |history| > UNDO_LIMIT {
        history := history[1..];
      }
    }

    method Connect(from: string) returns (errors: seq<Problem>)
      requires Usable(View())
      modifies this
      ensures View() == Apply(old(View()), Action.Connect(from))
      ensures from != "" ==> forall p :: p in errors <==> HasProblem(Connected(old(graph), (from, old(selected))), p)
    {
      hide HasProblem, Remembered;
      errors := [];
      if from == "" {
        return;
      }
      var next := graph.(edges := graph.edges + [(from, selected)]);
      errors := Validate(next);
      if errors != [] {
        assert errors[0] in errors;
        return;
      }
      Remember();
      graph := next;
    }

    method Add(name: string, kind: string, from: string)
      requires Usable(View())
      modifies this
      ensures View() == Apply(old(View()), Action.Add(name, kind, from))
    {
      hide Remembered;
      if name == "" {
        return;
      }
      counter := counter + 1;
      var id := StageId(counter);
      Remember();
      graph := graph.(nodes := graph.nodes + [Stage(id, name, kind)]);
      if from != "" {
        graph := graph.(edges := graph.edges + [(from, id)]);
      }
      selected := id;
    }

    /** Fails, with the stages already gone, when they all have the id of the one shown. */
    method Remove() returns (failed: bool)
      requires Usable(View())
      modifies this
      ensures View() == Apply(old(View()), Action.Remove)
      ensures failed <==> |old(graph).nodes| > 1 && graph.nodes == []
    {
      hide Remembered, Shown, HasProblem;
      failed := false;
      if |graph.nodes| > 1 {
        ShownIsSelected(graph, selected);
        var id := graph.nodes[Shown(graph.nodes, selected)].id;
        Remember();
        graph := graph.(nodes := WithoutStage(graph.nodes, id));
        graph := graph.(edges := WithoutEdgesAt(graph.edges, id));
        if graph.nodes == [] {
          return true;
        }
        selected := graph.nodes[0].id;
      }
    }

    method RemoveDependency(from: string)
      requires Usable(View())
      modifies this
      ensures View() == Apply(old(View()), Action.RemoveDependency(from))
    {
      hide Remembered;
      Remember();
      graph := graph.(edges := WithoutEdge(graph.edges, (from, selected)));
    }

    method Rename(name: string)
      requires Usable(View())
      modifies this
      ensures View() == Apply(old(View()), Action.Rename(name))
    {
      hide Remembered;
      if name == "" {
        return;
      }
      Remember();
      graph := graph.(nodes := RenameStage(graph.nodes, Shown(graph.nodes, selected), name));
    }

    method Undo()
      requires Usable(View())
      modifies this
      ensures View() == Apply(old(View()), Action.Undo)
    {
      if history != [] {
        graph := history[|history| - 1];
        history := history[..|history| - 1];
        if !(Find(graph.nodes, selected) < |graph.nodes|) {
          selected := graph.nodes[0].id;
        }
      }
    }

    method Save() returns (errors: seq<Problem>)
      requires Usable(View())
      modifies this
      ensures View() == Apply(old(View()), Action.Save)
      ensures errors == [] ==> !Dirty()
    {
      hide HasProblem;
      errors := Validate(graph);
      if errors != [] {
        assert errors[0] in errors;
        return;
      }
      saved := graph;
    }

    predicate Dirty()
      reads this
    {
      graph != saved
    }
  }

  lemma ShownIsSelected(g: Graph, selected: string)
    requires selected in Ids(g)
    ensures g.nodes[Shown(g.nodes, selected)].id == selected
  {
  }

  /** A graph with two stages keeps one when the other is removed. */
  lemma SomeOther(g: Graph, id: string)
    requires DistinctIds(g) && |g.nodes| > 1
    ensures WithoutStage(g.nodes, id) != []
  {
    assert g.nodes[0].id != g.nodes[1].id;
    assert g.nodes[0] in g.nodes && g.nodes[1] in g.nodes;
    assert g.nodes[0] in WithoutStage(g.nodes, id) || g.nodes[1] in WithoutStage(g.nodes, id);
  }

  // ------------------------------------------------------------------ edits keep the DAG

  lemma SubgraphAcyclic(es: seq<Edge>, fewer: seq<Edge>)
    requires Acyclic(es) && forall e | e in fewer :: e in es
    ensures Acyclic(fewer)
  {
    forall p | IsWalk(fewer, p) && 1 < |p| ensures p[0] != p[|p| - 1] {
      assert IsWalk(es, p);
    }
  }

  ghost predicate Path(es: seq<Edge>, from: string, to: string) {
    exists p :: IsWalk(es, p) && p[0] == from && p[|p| - 1] == to
  }

  ghost predicate Uses(p: seq<string>, e: Edge, i: int) { 0 <= i < |p| - 1 && (p[i], p[i + 1]) == e }

  /** A walk over es + [e] that does not use e is a walk over es. */
  lemma AvoidsEdge(es: seq<Edge>, e: Edge, p: seq<string>)
    requires IsWalk(es + [e], p) && forall i :: !Uses(p, e, i)
    ensures IsWalk(es, p)
  {
    forall i | 0 <= i < |p| - 1 ensures (p[i], p[i + 1]) in es {
      assert !Uses(p, e, i);
    }
  }

  lemma {:induction false} FirstUse(p: seq<string>, e: Edge, k: nat) returns (i: nat)
    requires Uses(p, e, k)
    ensures Uses(p, e, i) && forall j | 0 <= j < i :: !Uses(p, e, j)
  {
    i := k;
    if j :| 0 <= j < k && Uses(p, e, j) {
      i := FirstUse(p, e, j);
    }
  }

  /** A walk from the end of e to its start can be cut out of every cycle through e. */
  lemma {:induction false} CycleGivesPath(es: seq<Edge>, e: Edge, p: seq<string>, k: nat)
    requires IsWalk(es + [e], p) && 1 < |p| && p[0] == p[|p| - 1] && Uses(p, e, k)
    ensures Path(es, e.1, e.0)
  {
    var i := FirstUse(p, e, k);
    LastStretch(es, e, p, i, |p|);
  }

  lemma {:induction false} LastStretch(es: seq<Edge>, e: Edge, p: seq<string>, i: nat, k: nat)
    requires IsWalk(es + [e], p) && 1 < |p| && p[0] == p[|p| - 1] && i < k <= |p|
    requires Uses(p, e, i) && forall j | 0 <= j < i :: !Uses(p, e, j)
    requires forall j | k <= j :: !Uses(p, e, j)
    ensures Path(es, e.1, e.0)
    decreases k
  {
    if !Uses(p, e, k - 1) {
      LastStretch(es, e, p, i, k - 1);
    } else {
      var q := p[k..] + p[1..i + 1];
      forall j | 0 <= j < |q| - 1 ensures (q[j], q[j + 1]) in es {
        var at := if j < |p| - k - 1 then k + j else if j == |p| - k - 1 then 0 else j - (|p| - k) + 1;
        assert (q[j], q[j + 1]) == (p[at], p[at + 1]) && !Uses(p, e, at);
        assert (p[at], p[at + 1]) in es + [e];
      }
      assert q[|q| - 1] == p[i];
      assert IsWalk(es, q) && q[0] == e.1 && q[|q| - 1] == e.0;
    }
  }

  /** A new edge closes a cycle exactly when its end already leads to its start. */
  lemma EdgeKeepsAcyclic(es: seq<Edge>, e: Edge)
    requires Acyclic(es)
    ensures Acyclic(es + [e]) <==> !Path(es, e.1, e.0)
  {
    hide Path;
    if Path(es, e.1, e.0) {
      CloseCycle(es, e);
    } else {
      forall p | IsWalk(es + [e], p) && 1 < |p| ensures p[0] != p[|p| - 1] {
        if p[0] == p[|p| - 1] {
          if k: nat :| Uses(p, e, k) {
            CycleGivesPath(es, e, p, k);
          } else {
            AvoidsEdge(es, e, p);
          }
        }
      }
    }
  }

  lemma CloseCycle(es: seq<Edge>, e: Edge)
    requires Path(es, e.1, e.0)
    ensures !Acyclic(es + [e])
  {
    var p :| IsWalk(es, p) && p[0] == e.1 && p[|p| - 1] == e.0;
    var q := p + [e.1];
    forall i | 0 <= i < |q| - 1 ensures (q[i], q[i + 1]) in es + [e] {
      if i < |p| - 1 {
        assert (p[i], p[i + 1]) in es;
      } else {
        assert (q[i], q[i + 1]) == (es + [e])[|es|];
      }
    }
    assert IsWalk(es + [e], q) && q[0] == q[|q| - 1];
  }

  lemma FirstStep(es: seq<Edge>, p: seq<string>)
    requires IsWalk(es, p) && 1 < |p|
    ensures exists e :: e in es && e.0 == p[0]
  {
    assert (p[0], p[1]) in es;
  }

  /** Nothing leads out of a stage without outgoing edges. */
  lemma NoWayOut(es: seq<Edge>, from: string, to: string)
    requires from != to && forall e | e in es :: e.0 != from
    ensures !Path(es, from, to)
  {
    forall p | IsWalk(es, p) && p[0] == from ensures p[|p| - 1] == from {
      if 1 < |p| {
        FirstStep(es, p);
      }
    }
  }
}
