/** website/workspace-dag.js:88-100: where stages stand relative to each other in the drawing. */
module DagOrder {
  import opened Basics
  import opened Graphs
  import opened DagRanks
  import opened DagLayout
  import opened DagGeometry

  /** A column holds the stages of its rank in the order of the graph. */
  lemma {:induction false} InColumnIs(nodes: seq<Stage>, rank: map<string, int>, r: int)
    requires forall n | n in nodes :: n.id in rank
    ensures InColumn(nodes, rank, r) == Filter(nodes, (n: Stage) => n.id in rank && rank[n.id] == r)
  {
    if nodes != [] {
      var init, n := nodes[..|nodes| - 1], nodes[|nodes| - 1];
      hide Filter;
      InColumnIs(init, rank, r);
      FilterSnoc(init, n, (n: Stage) => n.id in rank && rank[n.id] == r);
      assert nodes == init + [n];
    }
  }

  lemma {:induction false} ColumnInOrder(nodes: seq<Stage>, rank: map<string, int>, r: int, a: int, b: int)
    returns (i: int, j: int)
    requires forall n | n in nodes :: n.id in rank
    requires 0 <= a < b < |nodes| && rank[nodes[a].id] == r && rank[nodes[b].id] == r
    ensures 0 <= i < j < |InColumn(nodes, rank, r)|
    ensures InColumn(nodes, rank, r)[i] == nodes[a] && InColumn(nodes, rank, r)[j] == nodes[b]
  {
    var init := nodes[..|nodes| - 1];
    var column := InColumn(init, rank, r);
    if b < |nodes| - 1 {
      i, j := ColumnInOrder(init, rank, r, a, b);
    } else {
      InColumnIff(init, rank, r, init[a]);
      i :| 0 <= i < |column| && column[i] == init[a];
      j := |column|;
    }
  }

  /** Stages of a later rank stand further on, clear of the gap between two columns; so every edge leads onwards. */
  lemma RanksStandInOrder(g: Graph, d: Drawing, max: int, u: string, v: string)
    requires IsDrawing(g, d, max) && u in Ids(g) && v in Ids(g) && d.rank[u] < d.rank[v]
    ensures if d.narrow then d.positions[u].y + 120 + 104 <= d.positions[v].y
            else d.positions[u].x + 168 + 88 <= d.positions[v].x
  {
    hide Ranked, ColumnsOf, Separate, Placed, Margin, Lanes;
    var r, i := PlaceOf(g, d, max, u);
    var s, j := PlaceOf(g, d, max, v);
  }

  lemma ColumnOf(g: Graph, d: Drawing, max: int, a: nat)
    requires IsDrawing(g, d, max) && a < |g.nodes|
    ensures g.nodes[a].id in Ids(g) && 0 <= d.rank[g.nodes[a].id] < |d.columns|
    ensures d.columns[d.rank[g.nodes[a].id]] == InColumn(g.nodes, d.rank, d.rank[g.nodes[a].id])
  {
    assert g.nodes[a] in g.nodes;
  }

  /** Stages of one rank stand in the order of the graph, clear of each other. */
  lemma StagesStandInOrder(g: Graph, d: Drawing, max: int, a: nat, b: nat)
    requires IsDrawing(g, d, max) && a < b < |g.nodes|
    requires g.nodes[a].id in d.rank && g.nodes[b].id in d.rank && d.rank[g.nodes[a].id] == d.rank[g.nodes[b].id]
    ensures g.nodes[a].id in d.positions && g.nodes[b].id in d.positions
    ensures var p, q := d.positions[g.nodes[a].id], d.positions[g.nodes[b].id];
            if d.narrow then p.x + 168 + 40 <= q.x else p.y + 120 + 80 <= q.y
  {
    var r := d.rank[g.nodes[a].id];
    ColumnOf(g, d, max, a);
    ColumnOf(g, d, max, b);
    hide Ranked, Separate, Margin, Lanes;
    var i, j := ColumnInOrder(g.nodes, d.rank, r, a, b);
    assert d.columns[r][i] == g.nodes[a] && d.columns[r][j] == g.nodes[b];
  }

  /** Every column is centred on the same line: its first and its last stage lie equally far from it. */
  lemma ColumnsCentred(g: Graph, d: Drawing, max: int, r: int, s: int)
    requires IsDrawing(g, d, max) && 0 <= r < |d.columns| && 0 <= s < |d.columns|
    ensures d.columns[r] != [] && d.columns[s] != []
    ensures var a, b := d.columns[r][0].id, d.columns[r][|d.columns[r]| - 1].id;
            var a', b' := d.columns[s][0].id, d.columns[s][|d.columns[s]| - 1].id;
            && a in d.positions && b in d.positions && a' in d.positions && b' in d.positions
            && Cross(d.positions[a], d.narrow) + Cross(d.positions[b], d.narrow)
               == Cross(d.positions[a'], d.narrow) + Cross(d.positions[b'], d.narrow)
  {
    hide Ranked, ColumnsOf, Separate, Margin, Lanes;
  }

  /** The canvas ends as far behind the last column as it begins before the first, and the longest column fills the
      space between the two margins for the lanes. */
  lemma CanvasFits(g: Graph, d: Drawing, max: int)
    requires IsDrawing(g, d, max)
    ensures exists v | v in d.positions :: if d.narrow then d.positions[v].y == 46 else d.positions[v].x == 32
    ensures exists v | v in d.positions ::
              if d.narrow then d.positions[v].y + 120 + 46 == d.height else d.positions[v].x + 168 + 32 == d.width
    ensures exists v | v in d.positions :: Cross(d.positions[v], d.narrow) == Start(g, d)
    ensures exists v | v in d.positions ::
              Cross(d.positions[v], d.narrow) + NodeSize(d.narrow) == Extent(d) - End(g, d)
  {
    hide Ranked, ColumnsOf, Separate, Margin, Lanes;
    var r :| 0 <= r < |d.columns| && |d.columns[r]| == max;
    StandsAt(g, d, max, 0, 0);
    StandsAt(g, d, max, |d.columns| - 1, 0);
    StandsAt(g, d, max, r, 0);
    StandsAt(g, d, max, r, max - 1);
  }

  lemma StandsAt(g: Graph, d: Drawing, max: int, r: int, i: int)
    requires IsDrawing(g, d, max) && 0 <= r < |d.columns| && 0 <= i < |d.columns[r]|
    ensures var v := d.columns[r][i].id;
            v in d.positions
            && d.positions[v] == Shift(Place(r, i, |d.columns[r]|, max, d.narrow), Start(g, d), d.narrow)
  {
  }
}
