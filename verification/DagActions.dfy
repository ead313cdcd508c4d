/** website/workspace-dag.js:253-279: what each action of the editor does to the draft, stage by stage and edge
    by edge. */
module DagActions {
  import opened Basics
  import opened Graphs
  import opened Text
  import opened DagEditor

  // ---------------------------------------------------------------- removing from lists

  lemma {:induction false} WithoutStageIs(nodes: seq<Stage>, id: string, keep: Stage -> bool)
    requires forall n :: keep(n) <==> n.id != id
    ensures WithoutStage(nodes, id) == Filter(nodes, keep)
  {
    if nodes != [] {
      var init, n := nodes[..|nodes| - 1], nodes[|nodes| - 1];
      hide Filter;
      WithoutStageIs(init, id, keep);
      FilterSnoc(init, n, keep);
      assert nodes == init + [n];
    }
  }

  lemma {:induction false} WithoutEdgesAtIs(es: seq<Edge>, id: string, keep: Edge -> bool)
    requires forall e :: keep(e) <==> e.0 != id && e.1 != id
    ensures WithoutEdgesAt(es, id) == Filter(es, keep)
  {
    if es != [] {
      var init, e := es[..|es| - 1], es[|es| - 1];
      hide Filter;
      WithoutEdgesAtIs(init, id, keep);
      FilterSnoc(init, e, keep);
      assert es == init + [e];
    }
  }

  lemma {:induction false} WithoutEdgeIs(es: seq<Edge>, d: Edge, keep: Edge -> bool)
    requires forall e :: keep(e) <==> e != d
    ensures WithoutEdge(es, d) == Filter(es, keep)
  {
    if es != [] {
      var init, e := es[..|es| - 1], es[|es| - 1];
      hide Filter;
      WithoutEdgeIs(init, d, keep);
      FilterSnoc(init, e, keep);
      assert es == init + [e];
    }
  }

  // ------------------------------------------------------------------------ the actions

  /** The draft before an edit can be restored, and neither the saved draft nor anything else about the page changes. */
  ghost predicate Undoable(s: State, s': State) {
    s'.history != [] && s'.history[|s'.history| - 1] == s.graph && s'.saved == s.saved
  }

  /** A new stage gets the next number, the given name and kind, and one predecessor: the chosen stage, or none. What
      was there before stays, in order. */
  lemma AddLaw(s: State, name: string, kind: string, from: string)
    requires Usable(s) && name != ""
    ensures var s', id := Apply(s, Add(name, kind, from)), "stage-" + Itoa(s.counter + 1);
            && s'.graph.nodes == s.graph.nodes + [Stage(id, name, kind)]
            && s'.graph.edges == s.graph.edges + (if from != "" then [(from, id)] else [])
            && s'.selected == id && s'.counter == s.counter + 1 && Undoable(s, s')
    ensures var s', id := Apply(s, Add(name, kind, from)), "stage-" + Itoa(s.counter + 1);
            EndpointsIn(s.graph.edges, Ids(s.graph)) && id !in Ids(s.graph) && from != id ==>
              && (forall u :: (u, id) in s'.graph.edges <==> from != "" && u == from)
              && forall u :: (id, u) !in s'.graph.edges
  {
    hide Ids;
    var s', id := Apply(s, Add(name, kind, from)), "stage-" + Itoa(s.counter + 1);
    assert s'.graph.edges == s.graph.edges + (if from != "" then [(from, id)] else []);
    assert forall e :: e in s'.graph.edges <==> e in s.graph.edges || (from != "" && e == (from, id));
  }

  /** The selected stage, the first of that id, gets the name; nothing else changes. */
  lemma RenameLaw(s: State, name: string, k: nat)
    requires Usable(s) && name != "" && k < |s.graph.nodes| && s.graph.nodes[k].id == s.selected
    requires forall j | 0 <= j < k :: s.graph.nodes[j].id != s.selected
    ensures var s' := Apply(s, Rename(name));
            && |s'.graph.nodes| == |s.graph.nodes| && s'.graph.edges == s.graph.edges
            && s'.graph.nodes[k] == Stage(s.selected, name, s.graph.nodes[k].kind)
            && (forall j | 0 <= j < |s.graph.nodes| && j != k :: s'.graph.nodes[j] == s.graph.nodes[j])
            && s'.selected == s.selected && s'.counter == s.counter && Undoable(s, s')
  {
  }

  /** The edge goes from the chosen stage to the selected one, after all others, if the result is accepted. */
  lemma ConnectLaw(s: State, from: string)
    requires Usable(s)
    ensures var s', g := Apply(s, Connect(from)), Graph(s.graph.nodes, s.graph.edges + [(from, s.selected)]);
            if from != "" && Accepted(g)
            then s' == State(g, s'.history, s.counter, s.selected, s.saved) && Undoable(s, s')
            else s' == s
  {
    hide Accepted, Remembered;
    assert s.graph.edges + [(from, s.selected)] == Connected(s.graph, (from, s.selected)).edges;
    if from != "" && Accepted(Connected(s.graph, (from, s.selected))) {
      LastRemembered(s.history, s.graph);
    }
  }

  lemma LastRemembered(history: seq<Graph>, g: Graph)
    ensures Remembered(history, g) != [] && Remembered(history, g)[|Remembered(history, g)| - 1] == g
  {
  }

  /** The selected stage goes with every edge that touches it; the others stay, in order, and the first one is
      selected. */
  lemma RemoveLaw(s: State)
    requires Usable(s)
    ensures var s' := Apply(s, Action.Remove);
            if |s.graph.nodes| > 1 then
              && s'.graph.nodes == Filter(s.graph.nodes, (n: Stage) => n.id != s.selected)
              && s'.graph.edges == Filter(s.graph.edges, (e: Edge) => e.0 != s.selected && e.1 != s.selected)
              && (s'.graph.nodes != [] ==> s'.selected == s'.graph.nodes[0].id)
              && s'.counter == s.counter && Undoable(s, s')
            else s' == s
  {
    hide Accepted, Remembered;
    WithoutStageIs(s.graph.nodes, s.selected, (n: Stage) => n.id != s.selected);
    WithoutEdgesAtIs(s.graph.edges, s.selected, (e: Edge) => e.0 != s.selected && e.1 != s.selected);
    LastRemembered(s.history, s.graph);
  }

  /** Exactly the edges from the given stage to the selected one go. */
  lemma RemoveDependencyLaw(s: State, from: string)
    requires Usable(s)
    ensures var s' := Apply(s, Action.RemoveDependency(from));
            && s'.graph == Graph(s.graph.nodes, Filter(s.graph.edges, (e: Edge) => e != (from, s.selected)))
            && s'.selected == s.selected && s'.counter == s.counter && Undoable(s, s')
  {
    hide Accepted, Remembered;
    WithoutEdgeIs(s.graph.edges, (from, s.selected), (e: Edge) => e != (from, s.selected));
    LastRemembered(s.history, s.graph);
  }

  /** The draft remembered last comes back; the selection stays if its stage is there and else goes to the first one. */
  lemma UndoLaw(s: State)
    requires Usable(s)
    ensures s.history == [] ==> Apply(s, Action.Undo) == s
    ensures s.history != [] ==>
              var s', g := Apply(s, Action.Undo), s.history[|s.history| - 1];
              && s'.graph == g && s'.history + [g] == s.history && s'.counter == s.counter && s'.saved == s.saved
              && s'.selected == if s.selected in Ids(g) then s.selected else g.nodes[0].id
  {
    if s.history != [] {
      var g := s.history[|s.history| - 1];
      assert g in s.history;
      if Find(g.nodes, s.selected) < |g.nodes| {
        assert g.nodes[Find(g.nodes, s.selected)] in g.nodes;
      }
    }
  }

  /** Saving keeps the draft, and makes it the saved one when it is accepted. */
  lemma SaveLaw(s: State)
    requires Usable(s)
    ensures Apply(s, Action.Save) ==
              if Accepted(s.graph) then State(s.graph, s.history, s.counter, s.selected, s.graph) else s
  {
    hide Accepted;
  }

  /** Without a name nothing is added or renamed. */
  lemma NamelessLaw(s: State, kind: string, from: string)
    requires Usable(s)
    ensures Apply(s, Add("", kind, from)) == s && Apply(s, Rename("")) == s
  {
  }
}
