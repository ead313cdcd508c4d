/** website/workspace-dag.js:102-128: in which order, and where, edges meet the side of a box and take their lanes. */
module DagPorts {
  import opened Graphs
  import opened DagLayout
  import opened DagGeometry

  /** Edge i leaves the stage v, or, with out false, enters it. */
  predicate At(g: Graph, out: bool, v: string, i: int) {
    0 <= i < |g.edges| && (if out then g.edges[i].0 else g.edges[i].1) == v
  }

  /** The other end of an edge at v, across the drawing. */
  function OtherEnd(g: Graph, d: Drawing, out: bool, i: int): int
    requires 0 <= i < |g.edges| && g.edges[i].0 in d.positions && g.edges[i].1 in d.positions
  {
    var p := d.positions[if out then g.edges[i].1 else g.edges[i].0];
    if d.narrow then p.x else p.y
  }

  ghost predicate Passes(g: Graph, d: Drawing, i: int, side: int)
    requires Drawable(g, d) && 0 <= i < |g.edges|
  {
    assert g.edges[i] in g.edges;
    d.rank[g.edges[i].1] - d.rank[g.edges[i].0] > 1 && Side(d.positions, d.narrow, g.edges[i]) == side
  }

  ghost predicate Direct(g: Graph, d: Drawing, i: int)
    requires Drawable(g, d) && 0 <= i < |g.edges|
  {
    assert g.edges[i] in g.edges;
    d.rank[g.edges[i].1] - d.rank[g.edges[i].0] <= 1
  }

  /** An edge passes the boxes before them exactly when its end does not lie before its start, across the drawing. */
  lemma SideIff(g: Graph, d: Drawing, i: nat, c: Connection)
    requires Drawable(g, d) && i < |g.edges| && LaneCorrect(g, d, i, c)
    ensures c.from == g.edges[i].0 && c.to == g.edges[i].1 && g.edges[i] in g.edges
    ensures c.skip <==> d.rank[c.to] - d.rank[c.from] > 1
    ensures c.side == -1 <==> if d.narrow then d.positions[c.from].x <= d.positions[c.to].x
                              else d.positions[c.from].y <= d.positions[c.to].y
    ensures c.side == -1 || c.side == 1
  {
  }

  lemma PortsFollow(g: Graph, d: Drawing, out: bool, v: string, i: nat, j: nat)
    requires Drawable(g, d) && At(g, out, v, i) && At(g, out, v, j)
    requires Precedes(g, d, out, i, j)
    ensures Port(g, d, out, i) < Port(g, d, out, j)
  {
    hide Precedes, Port;
    PortsSeparate(g, d, out, i, j);
  }

  /** Ports of direct edges follow their other ends: the edge whose other end lies further towards the start of the
      drawing has the port further towards it, so direct edges at one stage do not cross. Edges to the same place keep
      the order of the graph. */
  lemma DirectPortsIff(g: Graph, d: Drawing, out: bool, v: string, i: nat, j: nat)
    requires Drawable(g, d) && At(g, out, v, i) && At(g, out, v, j) && i != j && Direct(g, d, i) && Direct(g, d, j)
    ensures g.edges[i] in g.edges && g.edges[j] in g.edges
    ensures Port(g, d, out, i) < Port(g, d, out, j)
            <==> OtherEnd(g, d, out, i) < OtherEnd(g, d, out, j)
                 || (OtherEnd(g, d, out, i) == OtherEnd(g, d, out, j) && i < j)
  {
    hide Port;
    if Precedes(g, d, out, i, j) {
      PortsFollow(g, d, out, v, i, j);
    } else {
      PortsFollow(g, d, out, v, j, i);
    }
  }

  /** Edges that pass before the boxes have their ports before those of direct edges and those that pass after them have
      theirs last, as long as no box lies 100000 or more from the start of the drawing. */
  lemma PassingPortsOutside(g: Graph, d: Drawing, out: bool, v: string, i: nat, j: nat)
    requires Drawable(g, d) && At(g, out, v, i) && At(g, out, v, j)
    ensures Passes(g, d, i, -1) && Direct(g, d, j) && 0 <= OtherEnd(g, d, out, j) ==>
              Port(g, d, out, i) < Port(g, d, out, j)
    ensures Direct(g, d, i) && OtherEnd(g, d, out, i) < 100000 && Passes(g, d, j, 1) ==>
              Port(g, d, out, i) < Port(g, d, out, j)
    ensures Passes(g, d, i, -1) && Passes(g, d, j, 1) ==> Port(g, d, out, i) < Port(g, d, out, j)
  {
    hide Port;
    if Precedes(g, d, out, i, j) {
      PortsFollow(g, d, out, v, i, j);
    }
  }

  /** Edges that pass on the same side keep the order of the graph. */
  lemma PassingPortsInOrder(g: Graph, d: Drawing, out: bool, v: string, i: nat, j: nat, side: int)
    requires Drawable(g, d) && At(g, out, v, i) && At(g, out, v, j) && i < j
    requires Passes(g, d, i, side) && Passes(g, d, j, side)
    ensures Port(g, d, out, i) < Port(g, d, out, j)
  {
    hide Port;
    PortsFollow(g, d, out, v, i, j);
  }

  // ----------------------------------------------------------------------- even spacing

  ghost function EdgesAt(g: Graph, out: bool, v: string, n: nat): set<int> { set j | 0 <= j < n && At(g, out, v, j) }

  lemma OneMore(a: set<int>, b: set<int>, x: int, more: bool)
    requires x !in a && b == a + if more then {x} else {}
    ensures |b| == |a| + if more then 1 else 0
  {
  }

  lemma EdgesAtSnoc(g: Graph, out: bool, v: string, n: nat)
    requires 0 < n <= |g.edges|
    ensures n - 1 !in EdgesAt(g, out, v, n - 1)
    ensures EdgesAt(g, out, v, n) == EdgesAt(g, out, v, n - 1) + if At(g, out, v, n - 1) then {n - 1} else {}
  {
    hide At;
  }

  lemma PortCountStep(es: seq<Edge>, out: bool, v: string, n: nat)
    requires 0 < n <= |es|
    ensures PortCount(es, out, v, n) == PortCount(es, out, v, n - 1) + if Here(es[n - 1], out) == v then 1 else 0
  {
  }

  lemma NoEdgesAt(g: Graph, out: bool, v: string)
    ensures EdgesAt(g, out, v, 0) == {} && PortCount(g.edges, out, v, 0) == 0
  {
  }

  lemma {:induction false} PortCountIs(g: Graph, out: bool, v: string, n: nat)
    requires n <= |g.edges|
    ensures PortCount(g.edges, out, v, n) == |EdgesAt(g, out, v, n)|
  {
    if n == 0 {
      NoEdgesAt(g, out, v);
    } else {
      assert Here(g.edges[n - 1], out) == v <==> At(g, out, v, n - 1);
      hide EdgesAt, At, Here, PortCount;
      PortCountIs(g, out, v, n - 1);
      PortCountStep(g.edges, out, v, n);
      EdgesAtSnoc(g, out, v, n);
      OneMore(EdgesAt(g, out, v, n - 1), EdgesAt(g, out, v, n), n - 1, At(g, out, v, n - 1));
    }
  }

  ghost function SortedBefore(g: Graph, d: Drawing, out: bool, v: string, i: nat, n: nat): set<int>
    requires Drawable(g, d) && i < |g.edges| && n <= |g.edges|
  {
    set j | 0 <= j < n && At(g, out, v, j) && Precedes(g, d, out, j, i)
  }

  lemma SortedBeforeSnoc(g: Graph, d: Drawing, out: bool, v: string, i: nat, n: nat)
    requires Drawable(g, d) && i < |g.edges| && 0 < n <= |g.edges|
    ensures n - 1 !in SortedBefore(g, d, out, v, i, n - 1)
    ensures SortedBefore(g, d, out, v, i, n)
            == SortedBefore(g, d, out, v, i, n - 1)
               + if At(g, out, v, n - 1) && Precedes(g, d, out, n - 1, i) then {n - 1} else {}
  {
    hide At, Precedes;
  }

  lemma PortIndexStep(g: Graph, d: Drawing, out: bool, v: string, i: nat, n: nat)
    requires Drawable(g, d) && At(g, out, v, i) && 0 < n <= |g.edges|
    ensures PortIndex(g, d, out, i, n)
            == PortIndex(g, d, out, i, n - 1)
               + if At(g, out, v, n - 1) && Precedes(g, d, out, n - 1, i) then 1 else 0
  {
    hide Precedes;
  }

  lemma NoneSorted(g: Graph, d: Drawing, out: bool, v: string, i: nat)
    requires Drawable(g, d) && i < |g.edges|
    ensures SortedBefore(g, d, out, v, i, 0) == {} && PortIndex(g, d, out, i, 0) == 0
  {
  }

  lemma {:induction false} PortIndexIs(g: Graph, d: Drawing, out: bool, v: string, i: nat, n: nat)
    requires Drawable(g, d) && At(g, out, v, i) && n <= |g.edges|
    ensures PortIndex(g, d, out, i, n) == |SortedBefore(g, d, out, v, i, n)|
  {
    assert i < |g.edges|;
    hide Precedes, At, PortIndex, SortedBefore;
    if n == 0 {
      NoneSorted(g, d, out, v, i);
    } else {
      PortIndexIs(g, d, out, v, i, n - 1);
      PortIndexStep(g, d, out, v, i, n);
      SortedBeforeSnoc(g, d, out, v, i, n);
      OneMore(SortedBefore(g, d, out, v, i, n - 1), SortedBefore(g, d, out, v, i, n), n - 1,
              At(g, out, v, n - 1) && Precedes(g, d, out, n - 1, i));
    }
  }

  lemma PortsBefore(g: Graph, d: Drawing, out: bool, v: string, i: nat, j: nat)
    requires Drawable(g, d) && At(g, out, v, i) && At(g, out, v, j)
    ensures Precedes(g, d, out, j, i) <==> Port(g, d, out, j) < Port(g, d, out, i)
  {
    hide Port;
    if Precedes(g, d, out, j, i) {
      PortsFollow(g, d, out, v, j, i);
    } else if i != j {
      PortsFollow(g, d, out, v, i, j);
    }
  }

  /** The ports at one stage divide the side of its box evenly. */
  lemma PortsEven(g: Graph, d: Drawing, out: bool, v: string, i: nat)
    requires Drawable(g, d) && At(g, out, v, i)
    ensures var n := |g.edges|;
            var before := set j | 0 <= j < n && At(g, out, v, j) && Port(g, d, out, j) < Port(g, d, out, i);
            Port(g, d, out, i)
            == ((|before| + 1) * (if d.narrow then 168 else 120)) as real / (|EdgesAt(g, out, v, n)| + 1) as real
  {
    var n := |g.edges|;
    PortIndexIs(g, d, out, v, i, n);
    PortCountIs(g, out, v, n);
    PortValue(g, d, out, v, i);
    SameBefore(g, d, out, v, i);
  }

  lemma PortValue(g: Graph, d: Drawing, out: bool, v: string, i: nat)
    requires Drawable(g, d) && At(g, out, v, i)
    ensures var n := |g.edges|;
            Port(g, d, out, i) == ((PortIndex(g, d, out, i, n) + 1) * (if d.narrow then 168 else 120)) as real
                                  / (PortCount(g.edges, out, v, n) + 1) as real
  {
    hide PortIndex, PortCount;
  }

  lemma SameBefore(g: Graph, d: Drawing, out: bool, v: string, i: nat)
    requires Drawable(g, d) && At(g, out, v, i)
    ensures (set j | 0 <= j < |g.edges| && At(g, out, v, j) && Port(g, d, out, j) < Port(g, d, out, i))
            == SortedBefore(g, d, out, v, i, |g.edges|)
  {
    assert i < |g.edges|;
    hide Port, Precedes, At;
    forall j | 0 <= j < |g.edges| && At(g, out, v, j)
      ensures Precedes(g, d, out, j, i) <==> Port(g, d, out, j) < Port(g, d, out, i)
    {
      PortsBefore(g, d, out, v, i, j);
    }
  }

  // ------------------------------------------------------------------------------ lanes

  ghost function Passing(g: Graph, d: Drawing, side: int, n: nat): set<int>
    requires Drawable(g, d) && n <= |g.edges|
  {
    set k | 0 <= k < n && Passes(g, d, k, side)
  }

  lemma PassingSnoc(g: Graph, d: Drawing, side: int, n: nat)
    requires Drawable(g, d) && 0 < n <= |g.edges|
    ensures n - 1 !in Passing(g, d, side, n - 1)
    ensures Passing(g, d, side, n) == Passing(g, d, side, n - 1) + if Passes(g, d, n - 1, side) then {n - 1} else {}
  {
    hide Passes;
  }

  lemma {:induction false} LanesAre(g: Graph, d: Drawing, side: int, n: nat)
    requires Drawable(g, d) && n <= |g.edges|
    ensures Lanes(g.edges[..n], d.rank, d.positions, d.narrow, side) == |Passing(g, d, side, n)|
  {
    hide Side;
    if n > 0 {
      LanesAre(g, d, side, n - 1);
      PassingSnoc(g, d, side, n);
      LaneUsed(g, d, n - 1);
      hide Passing, Lanes;
      OneMore(Passing(g, d, side, n - 1), Passing(g, d, side, n), n - 1, Passes(g, d, n - 1, side));
    }
  }

  /** Skipping edges take the lanes of their side in the order of the graph, the first next to the edge of the canvas
      and each 44 further in. */
  lemma LaneIs(g: Graph, d: Drawing, i: nat, c: Connection)
    requires Drawable(g, d) && i < |g.edges| && LaneCorrect(g, d, i, c) && c.skip
    ensures c.lane == |Passing(g, d, c.side, i)|
    ensures var offset := (if d.narrow then 22 else 28) + 44 * c.lane;
            c.bypass == if c.side == -1 then offset else (if d.narrow then d.width else d.height) - offset
  {
    LanesAre(g, d, c.side, i);
  }

  /** The margins are just wide enough: the innermost lane runs 44, or 10 in the narrow layout, from the boxes. */
  lemma InnermostLane(g: Graph, d: Drawing, max: int)
    requires IsDrawing(g, d, max) && Drawable(g, d)
    ensures var n, first := |Passing(g, d, -1, |g.edges|)|, if d.narrow then 22 else 28;
            0 < n ==> Start(g, d) == first + 44 * (n - 1) + if d.narrow then 10 else 44
    ensures var n, first := |Passing(g, d, 1, |g.edges|)|, if d.narrow then 22 else 28;
            0 < n ==> End(g, d) == first + 44 * (n - 1) + if d.narrow then 10 else 44
  {
    hide IsDrawing, Lanes;
    LanesAre(g, d, -1, |g.edges|);
    LanesAre(g, d, 1, |g.edges|);
    assert g.edges[..|g.edges|] == g.edges;
  }
}
