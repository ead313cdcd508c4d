/** website/workspace-dag.js:85-101: columns, stage positions and canvas size of the drawing. */
module DagLayout {
  import opened Basics
  import opened Graphs
  import opened DagRanks

  const NODE_WIDTH := 168
  const NODE_HEIGHT := 120

  datatype Point = Point(x: int, y: int)

  datatype Drawing = Drawing(positions: map<string, Point>, rank: map<string, int>, columns: seq<seq<Stage>>,
                             width: int, height: int, narrow: bool)

  // ------------------------------------------------------------------------ columns

  /** The stages of rank r, in graph order. */
  function InColumn(nodes: seq<Stage>, rank: map<string, int>, r: int): seq<Stage>
    requires forall n | n in nodes :: n.id in rank
  {
    if nodes == [] then []
    else
      var n := nodes[|nodes| - 1];
      InColumn(nodes[..|nodes| - 1], rank, r) + (if rank[n.id] == r then [n] else [])
  }

  ghost predicate ColumnsOf(nodes: seq<Stage>, rank: map<string, int>, columns: seq<seq<Stage>>) {
    && (forall n | n in nodes :: n.id in rank && 0 <= rank[n.id] < |columns|)
    && forall r | 0 <= r < |columns| :: columns[r] == InColumn(nodes, rank, r)
  }

  /** The last column is in use. */
  ghost predicate LastUsed(nodes: seq<Stage>, rank: map<string, int>, count: int) {
    exists n | n in nodes :: n.id in rank && rank[n.id] == count - 1
  }

  lemma {:induction false} BeyondColumns(nodes: seq<Stage>, rank: map<string, int>, bound: int, r: int)
    requires forall n | n in nodes :: n.id in rank && rank[n.id] < bound
    requires bound <= r
    ensures InColumn(nodes, rank, r) == []
  {
    if nodes != [] {
      assert nodes[|nodes| - 1] in nodes;
      BeyondColumns(nodes[..|nodes| - 1], rank, bound, r);
    }
  }

  lemma AddStage(nodes: seq<Stage>, n: Stage, rank: map<string, int>, columns: seq<seq<Stage>>)
    requires ColumnsOf(nodes, rank, columns) && n.id in rank && 0 <= rank[n.id] < |columns|
    ensures ColumnsOf(nodes + [n], rank, columns[rank[n.id] := columns[rank[n.id]] + [n]])
  {
    assert (nodes + [n])[..|nodes|] == nodes;
  }

  /** Reading columns[r] grows the list with empty columns up to r. */
  method GrowTo(columns0: seq<seq<Stage>>, r: int, ghost nodes: seq<Stage>, ghost rank: map<string, int>)
    returns (columns: seq<seq<Stage>>)
    requires ColumnsOf(nodes, rank, columns0) && 0 <= r
    ensures ColumnsOf(nodes, rank, columns) && |columns| == Max(|columns0|, r + 1)
  {
    columns := columns0;
    while |columns| <= r
      invariant ColumnsOf(nodes, rank, columns) && |columns| <= Max(|columns0|, r + 1)
      invariant |columns0| <= |columns|
      decreases r - |columns|
    {
      BeyondColumns(nodes, rank, |columns|, |columns|);
      columns := columns + [[]];
    }
  }

  /** (columns[r] ||= []).push(n) for every stage; a missing column counts as empty. */
  method Columns(nodes: seq<Stage>, rank: map<string, int>) returns (columns: seq<seq<Stage>>)
    requires forall n | n in nodes :: n.id in rank && 0 <= rank[n.id]
    ensures ColumnsOf(nodes, rank, columns)
    ensures if nodes == [] then columns == [] else LastUsed(nodes, rank, |columns|)
  {
    hide ColumnsOf;
    columns := [];
    assert ColumnsOf(nodes[..0], rank, []) by { NoStages(rank); }
    var i := 0;
    while i < |nodes|
      invariant 0 <= i <= |nodes| && ColumnsOf(nodes[..i], rank, columns)
      invariant if i == 0 then columns == [] else LastUsed(nodes[..i], rank, |columns|)
    {
      var n := nodes[i];
      var r := rank[n.id];
      assert nodes[..i + 1] == nodes[..i] + [n];
      columns := GrowTo(columns, r, nodes[..i], rank);
      AddStage(nodes[..i], n, rank, columns);
      columns := columns[r := columns[r] + [n]];
      i := i + 1;
    }
    assert nodes[..i] == nodes;
  }

  lemma NoStages(rank: map<string, int>)
    ensures ColumnsOf([], rank, [])
  {
  }

  lemma {:induction false} InColumnIff(nodes: seq<Stage>, rank: map<string, int>, r: int, n: Stage)
    requires forall n | n in nodes :: n.id in rank
    ensures n in InColumn(nodes, rank, r) <==> n in nodes && rank[n.id] == r
  {
    if nodes != [] {
      var init, last := nodes[..|nodes| - 1], nodes[|nodes| - 1];
      assert nodes == init + [last];
      InColumnIff(init, rank, r, n);
    }
  }

  lemma {:induction false} ColumnDistinct(nodes: seq<Stage>, rank: map<string, int>, r: int)
    requires (forall n | n in nodes :: n.id in rank) && DistinctStages(nodes)
    ensures DistinctStages(InColumn(nodes, rank, r))
  {
    if nodes != [] {
      var init, last := nodes[..|nodes| - 1], nodes[|nodes| - 1];
      ColumnDistinct(init, rank, r);
      forall n | n in InColumn(init, rank, r) ensures n.id != last.id {
        InColumnIff(init, rank, r, n);
        var k :| 0 <= k < |init| && init[k] == n;
        assert nodes[k].id != nodes[|nodes| - 1].id;
      }
    }
  }

  /** Two places in the columns never hold the same id. */
  ghost predicate Separate(columns: seq<seq<Stage>>) {
    forall r, i, s, j | 0 <= r < |columns| && 0 <= i < |columns[r]| && 0 <= s < |columns| && 0 <= j < |columns[s]| ::
      columns[r][i].id == columns[s][j].id ==> r == s && i == j
  }

  lemma ColumnsSeparate(nodes: seq<Stage>, rank: map<string, int>, columns: seq<seq<Stage>>)
    requires ColumnsOf(nodes, rank, columns) && DistinctStages(nodes)
    ensures Separate(columns)
  {
    forall r, i, s, j | 0 <= r < |columns| && 0 <= i < |columns[r]| && 0 <= s < |columns| && 0 <= j < |columns[s]|
                        && columns[r][i].id == columns[s][j].id
      ensures r == s && i == j
    {
      InColumnIff(nodes, rank, r, columns[r][i]);
      InColumnIff(nodes, rank, s, columns[s][j]);
      ColumnDistinct(nodes, rank, r);
    }
  }

  // ---------------------------------------------------------------------- positions

  /** Place of the i-th of len stages in column r, before the lanes are added; max is the longest column. */
  function Place(r: int, i: int, len: int, max: int, narrow: bool): Point {
    if narrow then Point((max - len) * 104 + i * 208, 46 + r * 224)
    else Point(32 + r * 256, (max - len) * 100 + i * 200)
  }

  function Shift(p: Point, start: int, narrow: bool): Point {
    if narrow then Point(p.x + start, p.y) else Point(p.x, p.y + start)
  }

  ghost predicate Placed(columns: seq<seq<Stage>>, positions: map<string, Point>, max: int, start: int, narrow: bool) {
    forall r, i | 0 <= r < |columns| && 0 <= i < |columns[r]| ::
      columns[r][i].id in positions
      && positions[columns[r][i].id] == Shift(Place(r, i, |columns[r]|, max, narrow), start, narrow)
  }

  predicate Before(columns: seq<seq<Stage>>, s: int, j: int, r: int, i: int) {
    0 <= s < |columns| && 0 <= j < |columns[s]| && (s < r || (s == r && j < i))
  }

  /** Exactly the stages before place (r, i) have been given their places. */
  ghost predicate PlacedBefore(columns: seq<seq<Stage>>, positions: map<string, Point>, max: int, narrow: bool, r: int,
                               i: int)
  {
    && (forall s, j | Before(columns, s, j, r, i) ::
          columns[s][j].id in positions && positions[columns[s][j].id] == Place(s, j, |columns[s]|, max, narrow))
    && (forall v | v in positions :: exists s, j :: Before(columns, s, j, r, i) && columns[s][j].id == v)
  }

  lemma PlaceNext(columns: seq<seq<Stage>>, positions: map<string, Point>, max: int, narrow: bool, r: int, i: int)
    requires Separate(columns) && PlacedBefore(columns, positions, max, narrow, r, i)
    requires 0 <= r < |columns| && 0 <= i < |columns[r]|
    ensures PlacedBefore(columns, positions[columns[r][i].id := Place(r, i, |columns[r]|, max, narrow)], max, narrow,
                         r, i + 1)
  {
    hide Place;
    var positions' := positions[columns[r][i].id := Place(r, i, |columns[r]|, max, narrow)];
    forall v | v in positions' ensures exists s, j :: Before(columns, s, j, r, i + 1) && columns[s][j].id == v {
      if v in positions {
        var s, j :| Before(columns, s, j, r, i) && columns[s][j].id == v;
        assert Before(columns, s, j, r, i + 1);
      } else {
        assert Before(columns, r, i, r, i + 1);
      }
    }
  }

  lemma NextColumn(columns: seq<seq<Stage>>, positions: map<string, Point>, max: int, narrow: bool, r: int)
    requires 0 <= r < |columns| && PlacedBefore(columns, positions, max, narrow, r, |columns[r]|)
    ensures PlacedBefore(columns, positions, max, narrow, r + 1, 0)
  {
    hide Place;
    forall v | v in positions ensures exists s, j :: Before(columns, s, j, r + 1, 0) && columns[s][j].id == v {
      var s, j :| Before(columns, s, j, r, |columns[r]|) && columns[s][j].id == v;
      assert Before(columns, s, j, r + 1, 0);
    }
  }

  lemma AllPlaced(columns: seq<seq<Stage>>, positions: map<string, Point>, max: int, narrow: bool)
    requires PlacedBefore(columns, positions, max, narrow, |columns|, 0)
    ensures Placed(columns, positions, max, 0, narrow)
    ensures forall v ::
              v in positions <==> exists r, i | 0 <= r < |columns| && 0 <= i < |columns[r]| :: columns[r][i].id == v
  {
    forall r, i | 0 <= r < |columns| && 0 <= i < |columns[r]|
      ensures columns[r][i].id in positions
              && positions[columns[r][i].id] == Shift(Place(r, i, |columns[r]|, max, narrow), 0, narrow)
    {
      assert Before(columns, r, i, |columns|, 0);
    }
  }

  method PlaceAll(columns: seq<seq<Stage>>, max: int, narrow: bool) returns (positions: map<string, Point>)
    requires Separate(columns)
    ensures Placed(columns, positions, max, 0, narrow)
    ensures forall v ::
              v in positions <==> exists r, i | 0 <= r < |columns| && 0 <= i < |columns[r]| :: columns[r][i].id == v
  {
    positions := map[];
    assert PlacedBefore(columns, positions, max, narrow, 0, 0);
    hide PlacedBefore, Separate, Placed;
    var r := 0;
    while r < |columns|
      invariant 0 <= r <= |columns| && PlacedBefore(columns, positions, max, narrow, r, 0)
    {
      var i := 0;
      while i < |columns[r]|
        invariant 0 <= i <= |columns[r]| && PlacedBefore(columns, positions, max, narrow, r, i)
      {
        PlaceNext(columns, positions, max, narrow, r, i);
        positions := positions[columns[r][i].id := Place(r, i, |columns[r]|, max, narrow)];
        i := i + 1;
      }
      NextColumn(columns, positions, max, narrow, r);
      r := r + 1;
    }
    AllPlaced(columns, positions, max, narrow);
  }

  method ShiftAll(positions0: map<string, Point>, start: int, narrow: bool) returns (positions: map<string, Point>)
    ensures positions.Keys == positions0.Keys
    ensures forall v | v in positions :: positions[v] == Shift(positions0[v], start, narrow)
  {
    positions := positions0;
    var rest := positions0.Keys;
    while rest != {}
      invariant rest <= positions0.Keys == positions.Keys
      invariant forall v | v in positions ::
                  positions[v] == if v in rest then positions0[v] else Shift(positions0[v], start, narrow)
      decreases rest
    {
      var v :| v in rest;
      rest := rest - {v};
      positions := positions[v := Shift(positions[v], start, narrow)];
    }
  }

  /** Math.max(1, ...columns.map(col => col.length)) */
  method LongestColumn(columns: seq<seq<Stage>>) returns (max: int)
    ensures 1 <= max && forall r | 0 <= r < |columns| :: |columns[r]| <= max
    ensures max == 1 || exists r | 0 <= r < |columns| :: |columns[r]| == max
  {
    max := 1;
    var r := 0;
    while r < |columns|
      invariant 0 <= r <= |columns| && 1 <= max
      invariant forall s | 0 <= s < r :: |columns[s]| <= max
      invariant max == 1 || exists s | 0 <= s < r :: |columns[s]| == max
    {
      if |columns[r]| > max {
        max := |columns[r]|;
      }
      r := r + 1;
    }
  }

  // ------------------------------------------------------------------- bypass lanes

  function Cross(p: Point, narrow: bool): int { if narrow then p.x else p.y }

  predicate Skips(rank: map<string, int>, e: Edge)
    requires e.0 in rank && e.1 in rank
  {
    rank[e.1] - rank[e.0] > 1
  }

  /** The side of the drawing, -1 or 1, on which an edge that skips ranks passes the boxes. */
  function Side(positions: map<string, Point>, narrow: bool, e: Edge): (side: int)
    requires e.0 in positions && e.1 in positions
    ensures side == -1 || side == 1
  {
    if Cross(positions[e.0], narrow) <= Cross(positions[e.1], narrow) then -1 else 1
  }

  /** How many edges of es skip ranks on the given side. */
  function Lanes(es: seq<Edge>, rank: map<string, int>, positions: map<string, Point>, narrow: bool, side: int): nat
    requires forall e | e in es :: e.0 in rank && e.1 in rank && e.0 in positions && e.1 in positions
  {
    if es == [] then 0
    else
      var e := es[|es| - 1];
      Lanes(es[..|es| - 1], rank, positions, narrow, side)
      + (if Skips(rank, e) && Side(positions, narrow, e) == side then 1 else 0)
  }

  /** The loops that count the skipping edges on each side. */
  method CountLanes(es: seq<Edge>, rank: map<string, int>, positions: map<string, Point>, narrow: bool)
    returns (before: nat, after: nat)
    requires forall e | e in es :: e.0 in rank && e.1 in rank && e.0 in positions && e.1 in positions
    ensures before == Lanes(es, rank, positions, narrow, -1) && after == Lanes(es, rank, positions, narrow, 1)
  {
    var skipped := 0;
    before := 0;
    var i := 0;
    while i < |es|
      invariant 0 <= i <= |es|
      invariant before == Lanes(es[..i], rank, positions, narrow, -1)
      invariant skipped - before == Lanes(es[..i], rank, positions, narrow, 1)
    {
      var e := es[i];
      assert es[..i + 1][..i] == es[..i] && es[..i + 1][i] == e;
      if rank[e.1] - rank[e.0] > 1 {
        skipped := skipped + 1;
        if Cross(positions[e.0], narrow) <= Cross(positions[e.1], narrow) {
          before := before + 1;
        }
      }
      i := i + 1;
    }
    assert es[..i] == es;
    after := skipped - before;
  }

  /** Adding the same margin to every position changes no side. */
  lemma {:induction false} ShiftKeepsLanes(es: seq<Edge>, rank: map<string, int>, positions0: map<string, Point>,
                                           positions: map<string, Point>, start: int, narrow: bool, side: int)
    requires positions.Keys == positions0.Keys
    requires forall v | v in positions :: positions[v] == Shift(positions0[v], start, narrow)
    requires forall e | e in es :: e.0 in rank && e.1 in rank && e.0 in positions && e.1 in positions
    ensures Lanes(es, rank, positions, narrow, side) == Lanes(es, rank, positions0, narrow, side)
  {
    if es != [] {
      ShiftKeepsLanes(es[..|es| - 1], rank, positions0, positions, start, narrow, side);
    }
  }

  /** Room for n lanes on one side of the boxes. */
  function Margin(n: int, narrow: bool): int {
    if narrow then 32 + Max(0, n - 1) * 44 else if n > 0 then 72 + (n - 1) * 44 else 46
  }

  // ------------------------------------------------------------------------- layout

  /** What layout promises about its drawing. */
  ghost predicate IsDrawing(g: Graph, d: Drawing, max: int) {
    && Ranked(g, d.rank) && d.rank.Keys == Ids(g)
    && ColumnsOf(g.nodes, d.rank, d.columns) && Separate(d.columns)
    && (forall r | 0 <= r < |d.columns| :: 1 <= |d.columns[r]| <= max)
    && (exists r | 0 <= r < |d.columns| :: |d.columns[r]| == max)
    && d.positions.Keys == Ids(g) && EndpointsIn(g.edges, Ids(g))
    && var start := Margin(Lanes(g.edges, d.rank, d.positions, d.narrow, -1), d.narrow);
       var end := Margin(Lanes(g.edges, d.rank, d.positions, d.narrow, 1), d.narrow);
    && Placed(d.columns, d.positions, max, start, d.narrow)
    && d.width == (if d.narrow then start + end + max * 208 - 40 else 64 + |d.columns| * 256 - 88)
    && d.height == (if d.narrow then 92 + |d.columns| * 224 - 104 else start + end + max * 200 - 80)
  }

  lemma IdOfStage(g: Graph, n: Stage)
    requires n in g.nodes
    ensures n.id in Ids(g)
  {
  }

  lemma RanksInRange(g: Graph, rank: map<string, int>)
    requires ValidDag(g) && Ranked(g, rank)
    ensures forall n | n in g.nodes :: n.id in rank && 0 <= rank[n.id]
  {
    forall n | n in g.nodes ensures n.id in rank && 0 <= rank[n.id] {
      IdOfStage(g, n);
      RankBounds(g, rank, n.id);
    }
  }

  /** No column of the drawing is empty. */
  lemma ColumnsFull(g: Graph, rank: map<string, int>, columns: seq<seq<Stage>>)
    requires ValidDag(g) && Ranked(g, rank) && ColumnsOf(g.nodes, rank, columns) && LastUsed(g.nodes, rank, |columns|)
    ensures forall r | 0 <= r < |columns| :: columns[r] != []
  {
    var last :| last in g.nodes && last.id in rank && rank[last.id] == |columns| - 1;
    forall r | 0 <= r < |columns| ensures columns[r] != [] {
      IdOfStage(g, last);
      NoGaps(g, rank, last.id, r);
      var u :| u in Ids(g) && rank[u] == r;
      var n :| n in g.nodes && n.id == u;
      InColumnIff(g.nodes, rank, r, n);
    }
  }

  /** Exactly the graph's ids are placed. */
  lemma EveryIdPlaced(g: Graph, rank: map<string, int>, columns: seq<seq<Stage>>, v: string)
    requires ColumnsOf(g.nodes, rank, columns)
    ensures v in Ids(g) <==> exists r, i | 0 <= r < |columns| && 0 <= i < |columns[r]| :: columns[r][i].id == v
  {
    if v in Ids(g) {
      var n :| n in g.nodes && n.id == v;
      var r := rank[v];
      InColumnIff(g.nodes, rank, r, n);
      var i :| 0 <= i < |columns[r]| && columns[r][i] == n;
    }
    if r, i :| 0 <= r < |columns| && 0 <= i < |columns[r]| && columns[r][i].id == v {
      InColumnIff(g.nodes, rank, r, columns[r][i]);
    }
  }

  lemma ShiftPlaced(columns: seq<seq<Stage>>, positions0: map<string, Point>, positions: map<string, Point>,
                    max: int, start: int, narrow: bool)
    requires Placed(columns, positions0, max, 0, narrow)
    requires positions.Keys == positions0.Keys
    requires forall v | v in positions :: positions[v] == Shift(positions0[v], start, narrow)
    ensures Placed(columns, positions, max, start, narrow)
  {
    forall r, i | 0 <= r < |columns| && 0 <= i < |columns[r]|
      ensures columns[r][i].id in positions
              && positions[columns[r][i].id] == Shift(Place(r, i, |columns[r]|, max, narrow), start, narrow)
    {
      assert positions0[columns[r][i].id] == Shift(Place(r, i, |columns[r]|, max, narrow), 0, narrow);
    }
  }

  method Layout(g: Graph, narrow: bool) returns (d: Drawing, ghost max: int)
    requires ValidDag(g)
    ensures IsDrawing(g, d, max) && d.narrow == narrow
  {
    hide Ranked, ColumnsOf, Separate, Placed, Acyclic, LastUsed, Margin, DistinctIds, NoRepeats;
    var rank := Ranks(g);
    RanksInRange(g, rank);
    RankedKeys(g, rank);
    var columns := Columns(g.nodes, rank);
    ColumnsFull(g, rank, columns);
    SeparateStages(g, rank, columns);
    var longest := LongestColumn(columns);
    max := longest;
    SomeColumnLongest(g, rank, columns, longest);
    var positions, start, end := Positions(g, rank, columns, longest, narrow);
    d := Drawing(positions, rank, columns,
                 if narrow then start + end + longest * 208 - 40 else 64 + |columns| * 256 - 88,
                 if narrow then 92 + |columns| * 224 - 104 else start + end + longest * 200 - 80, narrow);
  }

  lemma SomeColumnLongest(g: Graph, rank: map<string, int>, columns: seq<seq<Stage>>, max: int)
    requires g.nodes != [] && ColumnsOf(g.nodes, rank, columns)
    requires (forall r | 0 <= r < |columns| :: 1 <= |columns[r]| <= max)
             && (max == 1 || exists r | 0 <= r < |columns| :: |columns[r]| == max)
    ensures exists r | 0 <= r < |columns| :: |columns[r]| == max
  {
    assert g.nodes[0] in g.nodes;
    if max == 1 {
      assert |columns[0]| == max;
    }
  }

  lemma SeparateStages(g: Graph, rank: map<string, int>, columns: seq<seq<Stage>>)
    requires DistinctIds(g) && ColumnsOf(g.nodes, rank, columns)
    ensures Separate(columns)
  {
    ColumnsSeparate(g.nodes, rank, columns);
  }

  /** The positions with room for the lanes, and the two margins. */
  method Positions(g: Graph, rank: map<string, int>, columns: seq<seq<Stage>>, longest: int, narrow: bool)
    returns (positions: map<string, Point>, start: int, end: int)
    requires rank.Keys == Ids(g) && EndpointsIn(g.edges, Ids(g))
    requires ColumnsOf(g.nodes, rank, columns) && Separate(columns)
    ensures positions.Keys == Ids(g) && Placed(columns, positions, longest, start, narrow)
    ensures start == Margin(Lanes(g.edges, rank, positions, narrow, -1), narrow)
    ensures end == Margin(Lanes(g.edges, rank, positions, narrow, 1), narrow)
  {
    hide ColumnsOf, Separate, Placed, Margin;
    var positions0 := PlaceAll(columns, longest, narrow);
    forall v ensures v in positions0 <==> v in Ids(g) {
      EveryIdPlaced(g, rank, columns, v);
    }
    var before, after := CountLanes(g.edges, rank, positions0, narrow);
    start := Margin(before, narrow);
    end := Margin(after, narrow);
    positions := ShiftAll(positions0, start, narrow);
    ShiftPlaced(columns, positions0, positions, longest, start, narrow);
    ShiftKeepsLanes(g.edges, rank, positions0, positions, start, narrow, -1);
    ShiftKeepsLanes(g.edges, rank, positions0, positions, start, narrow, 1);
  }

  lemma RankedKeys(g: Graph, rank: map<string, int>)
    requires Ranked(g, rank) && EndpointsIn(g.edges, Ids(g))
    ensures rank.Keys == Ids(g)
  {
  }
}
