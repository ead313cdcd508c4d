/** Drawings in which a bypass route does cross a box: on lane 6 of the wide layout, and on lane 8 of the narrow one. */
module DagCrossings {
  import opened Graphs
  import opened DagRanks
  import opened DagLayout
  import opened DagGeometry
  import opened DagRoutes

  // ------------------------------------------------------------------- the pipeline

  /** The stages a to f. */
  function Name(i: int): string
    requires 0 <= i < 6
  {
    [("abcdef")[i]]
  }

  lemma NamesDiffer(i: int, j: int)
    requires 0 <= i < 6 && 0 <= j < 6 && Name(i) == Name(j)
    ensures i == j
  {
    assert "abcdef"[i] == Name(i)[0] == Name(j)[0] == "abcdef"[j];
  }

  /** Edges 0 to 8 skip ranks: ac ad ae af bd be bf ce cf. Edges 9 to 13 lead from each stage to the next. */
  function Pair(k: int): (int, int) {
    if k < 4 then (0, k + 2) else if k < 7 then (1, k - 1) else if k < 9 then (2, k - 3) else (k - 9, k - 8)
  }

  lemma PairsAscend(k: int)
    requires 0 <= k < 14
    ensures 0 <= Pair(k).0 < Pair(k).1 < 6 && (k < 9 ==> Pair(k).0 + 1 < Pair(k).1)
  {
  }

  lemma PairsDiffer(j: int, k: int)
    requires 0 <= j < k < 14
    ensures Pair(j) != Pair(k)
  {
  }

  function EdgeAt(k: int): Edge
    requires 0 <= k < 14
  {
    (Name(Pair(k).0), Name(Pair(k).1))
  }

  function Pipeline(): Graph {
    Graph(seq(6, i requires 0 <= i < 6 => Stage(Name(i), "", "")), seq(14, k requires 0 <= k < 14 => EdgeAt(k)))
  }

  lemma PipelineIds(v: string)
    ensures v in Ids(Pipeline()) <==> exists i :: 0 <= i < 6 && v == Name(i)
  {
    hide Name;
    var nodes := Pipeline().nodes;
    if v in Ids(Pipeline()) {
      var n :| n in nodes && n.id == v;
      var i :| 0 <= i < |nodes| && nodes[i] == n;
      assert v == Name(i);
    }
    if i :| 0 <= i < 6 && v == Name(i) {
      assert nodes[i] in nodes;
    }
  }

  lemma PipelineEdge(e: Edge) returns (k: int)
    requires e in Pipeline().edges
    ensures 0 <= k < 14 && e == EdgeAt(k)
  {
    hide Name, Pair;
    var es := Pipeline().edges;
    k :| 0 <= k < |es| && es[k] == e;
  }

  lemma PipelineEnds()
    ensures EndpointsIn(Pipeline().edges, Ids(Pipeline()))
  {
    hide Name, Pipeline, Ids, Pair;
    forall e | e in Pipeline().edges ensures e.0 in Ids(Pipeline()) && e.1 in Ids(Pipeline()) {
      var k := PipelineEdge(e);
      PairsAscend(k);
      PipelineIds(e.0);
      PipelineIds(e.1);
    }
  }

  lemma PipelineDistinct()
    ensures DistinctIds(Pipeline()) && NoRepeats(Pipeline().edges)
  {
    hide Name, Pair;
    var nodes, es := Pipeline().nodes, Pipeline().edges;
    forall i, j | 0 <= i < j < |nodes| ensures nodes[i].id != nodes[j].id {
      if Name(i) == Name(j) {
        NamesDiffer(i, j);
      }
    }
    forall j, k | 0 <= j < k < |es| ensures es[j] != es[k] {
      PairsAscend(j);
      PairsAscend(k);
      PairsDiffer(j, k);
      if EdgeAt(j) == EdgeAt(k) {
        NamesDiffer(Pair(j).0, Pair(k).0);
        NamesDiffer(Pair(j).1, Pair(k).1);
      }
    }
  }

  lemma PipelineAcyclic()
    ensures Acyclic(Pipeline().edges)
  {
    hide Name, Pair, Acyclic, Pipeline;
    var order := seq(6, i requires 0 <= i < 6 => Name(i));
    forall e | e in Pipeline().edges ensures e.1 in order {
      var k := PipelineEdge(e);
      PairsAscend(k);
      assert order[Pair(k).1] == e.1;
    }
    forall i, e | 0 <= i < |order| && e in Pipeline().edges && e.1 == order[i] ensures e.0 in order[..i] {
      var k := PipelineEdge(e);
      PairsAscend(k);
      NamesDiffer(Pair(k).1, i);
      assert order[..i][Pair(k).0] == e.0;
    }
    TopologicalIsAcyclic(order, Pipeline().edges);
  }

  lemma PipelineIsDag()
    ensures ValidDag(Pipeline())
  {
    hide Acyclic, DistinctIds, NoRepeats, EndpointsIn;
    PipelineAcyclic();
    PipelineDistinct();
    PipelineEnds();
  }

  // -------------------------------------------------------------------- its drawings

  lemma StepAscends(rank: map<string, int>, i: int)
    requires Ranked(Pipeline(), rank) && 0 <= i < 5
    ensures Name(i) in rank && Name(i + 1) in rank && rank[Name(i)] < rank[Name(i + 1)]
  {
    hide Name, ValidDag, IsLongest;
    PipelineIsDag();
    PipelineIds(Name(i));
    PipelineIds(Name(i + 1));
    assert Pipeline().edges[9 + i] == (Name(i), Name(i + 1));
    EdgesAscend(Pipeline(), rank, (Name(i), Name(i + 1)));
  }

  lemma {:induction false} RankAtLeast(rank: map<string, int>, i: int)
    requires Ranked(Pipeline(), rank) && 0 <= i < 6
    ensures Name(i) in rank && i <= rank[Name(i)]
  {
    hide Name, ValidDag, IsLongest, Pipeline;
    PipelineIds(Name(i));
    if i == 0 {
      PipelineIsDag();
      RankBounds(Pipeline(), rank, Name(i));
    } else {
      RankAtLeast(rank, i - 1);
      StepAscends(rank, i - 1);
    }
  }

  lemma {:induction false} RankAtMost(rank: map<string, int>, i: int)
    requires Ranked(Pipeline(), rank) && 0 <= i < 6
    ensures Name(i) in rank && rank[Name(i)] <= i
    decreases 6 - i
  {
    hide Name, ValidDag, IsLongest, Ids, EdgeAt;
    PipelineIds(Name(i));
    if i == 5 {
      PipelineIsDag();
      RankBounds(Pipeline(), rank, Name(i));
    } else {
      RankAtMost(rank, i + 1);
      StepAscends(rank, i);
    }
  }

  /** In every drawing stage number i stands alone in column i, so all boxes are level. */
  lemma NumberIsRank(d: Drawing, max: int, i: int)
    requires IsDrawing(Pipeline(), d, max) && 0 <= i < 6
    ensures Name(i) in d.rank && Name(i) in d.positions && d.rank[Name(i)] == i
  {
    hide Name, Ranked, Pipeline, Placed, ColumnsOf, Separate, Lanes, Margin;
    RankAtLeast(d.rank, i);
    RankAtMost(d.rank, i);
  }

  lemma AloneInColumn(d: Drawing, max: int, r: int, j: int)
    requires IsDrawing(Pipeline(), d, max) && 0 <= r < |d.columns| && 0 <= j < |d.columns[r]|
    ensures 0 <= r < 6 && d.columns[r][j].id == Name(r)
  {
    hide Name, Ranked, Pipeline, Placed, Separate, Lanes, Margin, ColumnsOf;
    var g, v := Pipeline(), d.columns[r][j].id;
    EveryIdPlaced(g, d.rank, d.columns, v);
    ColumnIsRank(g, d, r, j);
    PipelineIds(v);
    var i :| 0 <= i < 6 && v == Name(i);
    NumberIsRank(d, max, i);
  }

  lemma BoxesLevel(d: Drawing, max: int, i: int)
    requires IsDrawing(Pipeline(), d, max) && 0 <= i < 6
    ensures Name(i) in d.positions && Drawable(Pipeline(), d)
    ensures Cross(d.positions[Name(i)], d.narrow) == Start(Pipeline(), d) + (max - 1) * (if d.narrow then 104 else 100)
  {
    hide Name, Ranked, Pipeline, Placed, ColumnsOf, Lanes, Margin;
    PipelineIds(Name(i));
    var r, j := PlaceOf(Pipeline(), d, max, Name(i));
    if |d.columns[r]| > 1 {
      AloneInColumn(d, max, r, 0);
      AloneInColumn(d, max, r, 1);
      assert false;
    }
  }

  /** All skipping edges take the side before the boxes, so edge k takes lane k. */
  lemma SkipsOnLane(d: Drawing, max: int, k: int)
    requires IsDrawing(Pipeline(), d, max) && Drawable(Pipeline(), d) && 0 <= k < 9
    ensures EdgeAt(k).0 in d.rank && EdgeAt(k).1 in d.rank && EdgeAt(k).0 in d.positions && EdgeAt(k).1 in d.positions
    ensures Skips(d.rank, EdgeAt(k)) && Side(d.positions, d.narrow, EdgeAt(k)) == -1
  {
    hide IsDrawing, Name, Pair, Pipeline;
    PairsAscend(k);
    NumberIsRank(d, max, Pair(k).0);
    NumberIsRank(d, max, Pair(k).1);
    BoxesLevel(d, max, Pair(k).0);
    BoxesLevel(d, max, Pair(k).1);
  }

  lemma {:induction false} LaneNumber(d: Drawing, max: int, k: int)
    requires IsDrawing(Pipeline(), d, max) && Drawable(Pipeline(), d) && 0 <= k <= 9
    ensures Lanes(Pipeline().edges[..k], d.rank, d.positions, d.narrow, -1) == k
  {
    hide IsDrawing, Name, Pair, Lanes, Side, Skips;
    var es := Pipeline().edges;
    if k == 0 {
      NoLanes(Pipeline(), d);
    } else {
      LaneNumber(d, max, k - 1);
      LaneUsed(Pipeline(), d, k - 1);
      SkipsOnLane(d, max, k - 1);
      assert es[k - 1] == EdgeAt(k - 1);
    }
  }

  // --------------------------------------------------------------------- the crossing

  lemma PortInside(g: Graph, d: Drawing, i: nat)
    requires Drawable(g, d) && i < |g.edges|
    ensures 0.0 < Port(g, d, false, i)
  {
    hide PortIndex, PortCount;
    assert 0 < (PortIndex(g, d, false, i, |g.edges|) + 1) * NodeSize(d.narrow);
  }

  /** Edge 6, from b to f, takes lane 6 of the wide layout, and edge 8, from c to f, lane 8 of the narrow one. Both turn
      back inside the column of e and cross its box. */
  lemma RouteThroughBox(d: Drawing, max: int, c: Connection)
    requires IsDrawing(Pipeline(), d, max) && Drawable(Pipeline(), d)
    requires var k := if d.narrow then 8 else 6; LaneCorrect(Pipeline(), d, k, c) && PortsCorrect(Pipeline(), d, k, c)
    ensures c.skip && c.lane == (if d.narrow then 8 else 6)
    ensures c.from in d.positions && c.to in d.positions && Name(4) in d.positions
    ensures RouteCrosses(d, c, d.positions[Name(4)])
  {
    hide IsDrawing, Name, Lanes, Port, RouteCrosses, Crosses, Side, Skips;
    var g, k := Pipeline(), if d.narrow then 8 else 6;
    assert g.edges[k] == EdgeAt(k);
    LaneNumber(d, max, k);
    SkipsOnLane(d, max, k);
    NumberIsRank(d, max, 4);
    NumberIsRank(d, max, 5);
    BoxesLevel(d, max, 4);
    BoxesLevel(d, max, 5);
    PipelineIds(Name(4));
    PortInside(g, d, k);
    RouteCrossesIff(g, d, max, k, c, Name(4));
    assert WithinColumn(d.narrow, LastTurn(d.narrow, 5, c.lane), 4);
  }

  /** Such drawings are what the page shows of this pipeline. */
  method DrawCrossing(narrow: bool) returns (d: Drawing, cs: seq<Connection>)
    ensures |cs| == 14 && d.narrow == narrow
    ensures var c := cs[if narrow then 8 else 6];
            && c.skip && c.lane == (if narrow then 8 else 6)
            && c.from in d.positions && c.to in d.positions && Name(4) in d.positions
            && RouteCrosses(d, c, d.positions[Name(4)])
  {
    hide IsDrawing, Name, LaneCorrect, PortsCorrect, RouteCrosses, EdgeAt;
    PipelineIsDag();
    ghost var max;
    d, max := Layout(Pipeline(), narrow);
    BoxesLevel(d, max, 0);
    cs := Connections(Pipeline(), d);
    RouteThroughBox(d, max, cs[if narrow then 8 else 6]);
  }
}
