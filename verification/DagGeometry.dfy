/** website/workspace-dag.js:91-128: boxes never overlap, bypass lanes miss every box, ports are separate. */
module DagGeometry {
  import opened Graphs
  import opened DagRanks
  import opened DagLayout

  // --------------------------------------------------------------------------- boxes

  predicate InsideCanvas(p: Point, d: Drawing) {
    0 <= p.x && p.x + NODE_WIDTH <= d.width && 0 <= p.y && p.y + NODE_HEIGHT <= d.height
  }

  predicate Apart(p: Point, q: Point) {
    p.x + NODE_WIDTH < q.x || q.x + NODE_WIDTH < p.x || p.y + NODE_HEIGHT < q.y || q.y + NODE_HEIGHT < p.y
  }

  function Extent(d: Drawing): int { if d.narrow then d.width else d.height }

  function NodeSize(narrow: bool): int { if narrow then NODE_WIDTH else NODE_HEIGHT }

  function Start(g: Graph, d: Drawing): int
    requires EndpointsIn(g.edges, Ids(g)) && d.rank.Keys == d.positions.Keys == Ids(g)
  {
    Margin(Lanes(g.edges, d.rank, d.positions, d.narrow, -1), d.narrow)
  }

  function End(g: Graph, d: Drawing): int
    requires EndpointsIn(g.edges, Ids(g)) && d.rank.Keys == d.positions.Keys == Ids(g)
  {
    Margin(Lanes(g.edges, d.rank, d.positions, d.narrow, 1), d.narrow)
  }

  /** Row and column of a stage in the drawing, with the bounds the geometry rests on. */
  lemma PlaceOf(g: Graph, d: Drawing, max: int, v: string) returns (r: int, i: int)
    requires IsDrawing(g, d, max) && v in Ids(g)
    ensures 0 <= r < |d.columns| && 0 <= i < |d.columns[r]| <= max && d.columns[r][i].id == v && d.rank[v] == r
    ensures d.positions[v] == Shift(Place(r, i, |d.columns[r]|, max, d.narrow), Start(g, d), d.narrow)
  {
    hide Ranked, ColumnsOf, Separate, Margin, Lanes, Place, Shift;
    EveryIdPlaced(g, d.rank, d.columns, v);
    r, i :| 0 <= r < |d.columns| && 0 <= i < |d.columns[r]| && d.columns[r][i].id == v;
    ColumnIsRank(g, d, r, i);
  }

  lemma ColumnIsRank(g: Graph, d: Drawing, r: int, i: int)
    requires ColumnsOf(g.nodes, d.rank, d.columns) && 0 <= r < |d.columns| && 0 <= i < |d.columns[r]|
    ensures d.columns[r][i].id in d.rank && d.rank[d.columns[r][i].id] == r
  {
    InColumnIff(g.nodes, d.rank, r, d.columns[r][i]);
  }

  lemma PlacesInside(d: Drawing, r: int, i: int, len: int, max: int, start: int, end: int)
    requires 0 <= r < |d.columns| && 0 <= i < len <= max && 32 <= start && 32 <= end
    requires d.width == (if d.narrow then start + end + max * 208 - 40 else 64 + |d.columns| * 256 - 88)
    requires d.height == (if d.narrow then 92 + |d.columns| * 224 - 104 else start + end + max * 200 - 80)
    ensures var p := Shift(Place(r, i, len, max, d.narrow), start, d.narrow);
            && InsideCanvas(p, d)
            && start <= Cross(p, d.narrow) && Cross(p, d.narrow) + NodeSize(d.narrow) <= Extent(d) - end
  {
  }

  lemma PlacesApart(r: int, i: int, len: int, s: int, j: int, len': int, max: int, start: int, narrow: bool)
    requires (r != s) || (i != j && len == len')
    ensures Apart(Shift(Place(r, i, len, max, narrow), start, narrow),
                  Shift(Place(s, j, len', max, narrow), start, narrow))
  {
  }

  /** All boxes lie in the canvas, between the two margins kept for the lanes. */
  lemma BoxInside(g: Graph, d: Drawing, max: int, v: string)
    requires IsDrawing(g, d, max) && v in Ids(g)
    ensures InsideCanvas(d.positions[v], d)
    ensures Start(g, d) <= Cross(d.positions[v], d.narrow)
    ensures Cross(d.positions[v], d.narrow) + NodeSize(d.narrow) <= Extent(d) - End(g, d)
  {
    hide Ranked, ColumnsOf, Separate, Placed;
    var r, i := PlaceOf(g, d, max, v);
    PlacesInside(d, r, i, |d.columns[r]|, max, Start(g, d), End(g, d));
  }

  /** Boxes of different stages do not touch. */
  lemma BoxesApart(g: Graph, d: Drawing, max: int, u: string, v: string)
    requires IsDrawing(g, d, max) && u in Ids(g) && v in Ids(g) && u != v
    ensures Apart(d.positions[u], d.positions[v])
  {
    hide Ranked, ColumnsOf, Separate, Placed;
    var r, i := PlaceOf(g, d, max, u);
    var s, j := PlaceOf(g, d, max, v);
    PlacesApart(r, i, |d.columns[r]|, s, j, |d.columns[s]|, max, Start(g, d), d.narrow);
  }

  // --------------------------------------------------------------------- connections

  datatype Connection = Connection(from: string, to: string, index: nat, skip: bool, side: int,
                                   lane: int, bypass: int, outPort: real, inPort: real)

  ghost predicate Drawable(g: Graph, d: Drawing) {
    EndpointsIn(g.edges, Ids(g)) && d.rank.Keys == d.positions.Keys == Ids(g)
  }

  /** The coordinate across the drawing at which lane number lane of a side runs. */
  function Bypass(d: Drawing, side: int, lane: int): int {
    if d.narrow then (if side < 0 then 22 + lane * 44 else d.width - 22 - lane * 44)
    else (if side < 0 then 28 + lane * 44 else d.height - 28 - lane * 44)
  }

  ghost predicate LaneCorrect(g: Graph, d: Drawing, i: nat, c: Connection)
    requires Drawable(g, d) && i < |g.edges|
  {
    var e := g.edges[i];
    && c.from == e.0 && c.to == e.1 && c.index == i
    && c.skip == Skips(d.rank, e) && c.side == Side(d.positions, d.narrow, e)
    && c.lane == (if c.skip then Lanes(g.edges[..i], d.rank, d.positions, d.narrow, c.side) else -1)
    && c.bypass == Bypass(d, c.side, c.lane)
  }

  // ports: the order in which edges leave, or enter, one stage

  /** The stage whose ports are being ordered. */
  function Here(e: Edge, out: bool): string { if out then e.0 else e.1 }

  function There(e: Edge, out: bool): string { if out then e.1 else e.0 }

  /** The number the comparator looks at first. */
  function SortKey(d: Drawing, e: Edge, out: bool): int
    requires e.0 in d.rank && e.1 in d.rank && e.0 in d.positions && e.1 in d.positions
  {
    if Skips(d.rank, e) then Side(d.positions, d.narrow, e) * 100000 else Cross(d.positions[There(e, out)], d.narrow)
  }

  /** Edge j is sorted before edge i: by key, then by index. */
  predicate Precedes(g: Graph, d: Drawing, out: bool, j: nat, i: nat)
    requires (forall e | e in g.edges :: e.0 in d.rank && e.1 in d.rank && e.0 in d.positions && e.1 in d.positions)
    requires i < |g.edges| && j < |g.edges|
  {
    var a, b := SortKey(d, g.edges[j], out), SortKey(d, g.edges[i], out);
    a < b || (a == b && j < i)
  }

  /** Among the first n edges at the same stage as edge i: how many sort before it, and how many there are. */
  function PortIndex(g: Graph, d: Drawing, out: bool, i: nat, n: nat): nat
    requires (forall e | e in g.edges :: e.0 in d.rank && e.1 in d.rank && e.0 in d.positions && e.1 in d.positions)
    requires i < |g.edges| && n <= |g.edges|
  {
    if n == 0 then 0
    else PortIndex(g, d, out, i, n - 1)
         + (if Here(g.edges[n - 1], out) == Here(g.edges[i], out) && Precedes(g, d, out, n - 1, i) then 1 else 0)
  }

  function PortCount(es: seq<Edge>, out: bool, v: string, n: nat): nat
    requires n <= |es|
  {
    if n == 0 then 0 else PortCount(es, out, v, n - 1) + (if Here(es[n - 1], out) == v then 1 else 0)
  }

  function Port(g: Graph, d: Drawing, out: bool, i: nat): real
    requires (forall e | e in g.edges :: e.0 in d.rank && e.1 in d.rank && e.0 in d.positions && e.1 in d.positions)
    requires i < |g.edges|
  {
    ((PortIndex(g, d, out, i, |g.edges|) + 1) * NodeSize(d.narrow)) as real
    / (PortCount(g.edges, out, Here(g.edges[i], out), |g.edges|) + 1) as real
  }

  ghost predicate PortsCorrect(g: Graph, d: Drawing, i: nat, c: Connection)
    requires Drawable(g, d) && i < |g.edges|
  {
    c.outPort == Port(g, d, true, i) && c.inPort == Port(g, d, false, i)
  }

  /** Position of edge i among the sorted edges at its stage, and their number. */
  method SortedPosition(g: Graph, d: Drawing, out: bool, i: nat) returns (position: nat, count: nat)
    requires (forall e | e in g.edges :: e.0 in d.rank && e.1 in d.rank && e.0 in d.positions && e.1 in d.positions)
    requires i < |g.edges|
    ensures position == PortIndex(g, d, out, i, |g.edges|)
    ensures count == PortCount(g.edges, out, Here(g.edges[i], out), |g.edges|)
  {
    position, count := 0, 0;
    var n := 0;
    while n < |g.edges|
      invariant 0 <= n <= |g.edges|
      invariant position == PortIndex(g, d, out, i, n)
      invariant count == PortCount(g.edges, out, Here(g.edges[i], out), n)
    {
      if Here(g.edges[n], out) == Here(g.edges[i], out) {
        count := count + 1;
        if Precedes(g, d, out, n, i) {
          position := position + 1;
        }
      }
      n := n + 1;
    }
  }

  method Connections(g: Graph, d: Drawing) returns (cs: seq<Connection>)
    requires Drawable(g, d)
    ensures |cs| == |g.edges|
    ensures forall i | 0 <= i < |cs| :: LaneCorrect(g, d, i, cs[i]) && PortsCorrect(g, d, i, cs[i])
  {
    hide PortIndex, PortCount, Precedes, SortKey, Side, Skips, Cross, NodeSize, Bypass, Lanes, LaneCorrect,
         PortsCorrect;
    cs := [];
    var before, after := 0, 0;  // lanes used so far on each side
    NoLanes(g, d);
    var i := 0;
    while i < |g.edges|
      invariant 0 <= i == |cs| <= |g.edges|
      invariant before == Lanes(g.edges[..i], d.rank, d.positions, d.narrow, -1)
      invariant after == Lanes(g.edges[..i], d.rank, d.positions, d.narrow, 1)
      invariant forall j | 0 <= j < i :: LaneCorrect(g, d, j, cs[j]) && PortsCorrect(g, d, j, cs[j])
    {
      var e := g.edges[i];
      var skip, side := Skips(d.rank, e), Side(d.positions, d.narrow, e);
      var lane := if !skip then -1 else if side == -1 then before else after;
      var outPosition, outCount := SortedPosition(g, d, true, i);
      var inPosition, inCount := SortedPosition(g, d, false, i);
      var c := Connection(e.0, e.1, i, skip, side, lane, Bypass(d, side, lane),
                          ((outPosition + 1) * NodeSize(d.narrow)) as real / (outCount + 1) as real,
                          ((inPosition + 1) * NodeSize(d.narrow)) as real / (inCount + 1) as real);
      LaneIsCorrect(g, d, i, c);
      PortsAreCorrect(g, d, i, c);
      LaneUsed(g, d, i);
      cs := cs + [c];
      if skip {
        if side == -1 {
          before := before + 1;
        } else {
          after := after + 1;
        }
      }
      i := i + 1;
    }
  }

  lemma NoLanes(g: Graph, d: Drawing)
    requires Drawable(g, d)
    ensures Lanes(g.edges[..0], d.rank, d.positions, d.narrow, -1) == 0
    ensures Lanes(g.edges[..0], d.rank, d.positions, d.narrow, 1) == 0
  {
  }

  lemma LaneUsed(g: Graph, d: Drawing, i: nat)
    requires Drawable(g, d) && i < |g.edges|
    ensures forall side :: Lanes(g.edges[..i + 1], d.rank, d.positions, d.narrow, side)
                           == Lanes(g.edges[..i], d.rank, d.positions, d.narrow, side)
                              + (if Skips(d.rank, g.edges[i]) && Side(d.positions, d.narrow, g.edges[i]) == side
                                 then 1 else 0)
  {
    assert g.edges[..i + 1][..i] == g.edges[..i] && g.edges[..i + 1][i] == g.edges[i];
  }

  lemma LaneIsCorrect(g: Graph, d: Drawing, i: nat, c: Connection)
    requires Drawable(g, d) && i < |g.edges| && c.from == g.edges[i].0 && c.to == g.edges[i].1 && c.index == i
    requires c.skip == Skips(d.rank, g.edges[i]) && c.side == Side(d.positions, d.narrow, g.edges[i])
    requires c.lane == (if c.skip then Lanes(g.edges[..i], d.rank, d.positions, d.narrow, c.side) else -1)
    requires c.bypass == Bypass(d, c.side, c.lane)
    ensures LaneCorrect(g, d, i, c)
  {
    hide Lanes, Bypass;
  }

  lemma PortsAreCorrect(g: Graph, d: Drawing, i: nat, c: Connection)
    requires Drawable(g, d) && i < |g.edges|
    requires c.outPort == ((PortIndex(g, d, true, i, |g.edges|) + 1) * NodeSize(d.narrow)) as real
                          / (PortCount(g.edges, true, Here(g.edges[i], true), |g.edges|) + 1) as real
    requires c.inPort == ((PortIndex(g, d, false, i, |g.edges|) + 1) * NodeSize(d.narrow)) as real
                         / (PortCount(g.edges, false, Here(g.edges[i], false), |g.edges|) + 1) as real
    ensures PortsCorrect(g, d, i, c)
  {
    hide PortIndex, PortCount;
  }

  // -------------------------------------------------------------------- bypass lanes

  lemma {:induction false} LanesGrow(g: Graph, d: Drawing, i: nat, j: nat, side: int)
    requires Drawable(g, d) && i <= j <= |g.edges|
    ensures Lanes(g.edges[..i], d.rank, d.positions, d.narrow, side)
            <= Lanes(g.edges[..j], d.rank, d.positions, d.narrow, side)
    decreases j
  {
    if i < j {
      LanesGrow(g, d, i, j - 1, side);
      assert g.edges[..j][..j - 1] == g.edges[..j - 1];
    }
  }

  lemma LaneBelow(g: Graph, d: Drawing, i: nat, j: nat)
    requires Drawable(g, d) && i < j <= |g.edges| && Skips(d.rank, g.edges[i])
    ensures var side := Side(d.positions, d.narrow, g.edges[i]);
            Lanes(g.edges[..i], d.rank, d.positions, d.narrow, side)
            < Lanes(g.edges[..j], d.rank, d.positions, d.narrow, side)
  {
    LanesGrow(g, d, i + 1, j, Side(d.positions, d.narrow, g.edges[i]));
    assert g.edges[..i + 1][..i] == g.edges[..i] && g.edges[..i + 1][i] == g.edges[i];
  }

  /** The lane of an edge that skips ranks runs inside the canvas and strictly outside the band of boxes. */
  lemma LaneMissesBoxes(g: Graph, d: Drawing, max: int, i: nat, c: Connection, v: string)
    requires IsDrawing(g, d, max) && Drawable(g, d) && i < |g.edges| && LaneCorrect(g, d, i, c) && c.skip && v in Ids(g)
    ensures 0 < c.bypass < Extent(d)
    ensures c.side < 0 ==> c.bypass < Cross(d.positions[v], d.narrow)
    ensures c.side > 0 ==> Cross(d.positions[v], d.narrow) + NodeSize(d.narrow) < c.bypass
  {
    hide IsDrawing, Lanes;
    LaneBelow(g, d, i, |g.edges|);
    assert g.edges[..|g.edges|] == g.edges;
    BoxInside(g, d, max, v);
  }

  /** No two edges that skip ranks share a lane coordinate, on one side or across sides. */
  lemma LanesDistinct(g: Graph, d: Drawing, max: int, i: nat, j: nat, c: Connection, c': Connection)
    requires IsDrawing(g, d, max) && Drawable(g, d) && i < j < |g.edges|
    requires LaneCorrect(g, d, i, c) && LaneCorrect(g, d, j, c') && c.skip && c'.skip
    ensures c.bypass != c'.bypass
  {
    hide IsDrawing, Lanes;
    if c.side == c'.side {
      LaneBelow(g, d, i, j);
    } else {
      assert g.edges[i].0 in Ids(g);
      LaneMissesBoxes(g, d, max, i, c, g.edges[i].0);
      LaneMissesBoxes(g, d, max, j, c', g.edges[i].0);
    }
  }

  // --------------------------------------------------------------------------- ports

  /** Sorting earlier means a smaller position. */
  lemma {:induction false} PortIndexAscends(g: Graph, d: Drawing, out: bool, i: nat, j: nat, n: nat)
    requires Drawable(g, d) && i < |g.edges| && j < |g.edges| && n <= |g.edges|
    requires Here(g.edges[i], out) == Here(g.edges[j], out) && Precedes(g, d, out, i, j)
    ensures PortIndex(g, d, out, i, n) + (if i < n then 1 else 0) <= PortIndex(g, d, out, j, n)
  {
    hide SortKey;
    if n > 0 {
      PortIndexAscends(g, d, out, i, j, n - 1);
    }
  }

  lemma {:induction false} PortIndexBelow(g: Graph, d: Drawing, out: bool, i: nat, n: nat)
    requires Drawable(g, d) && i < |g.edges| && n <= |g.edges|
    ensures PortIndex(g, d, out, i, n) + (if i < n then 1 else 0) <= PortCount(g.edges, out, Here(g.edges[i], out), n)
  {
    if n > 0 {
      PortIndexBelow(g, d, out, i, n - 1);
    }
  }

  lemma Fraction(a: nat, b: nat, n: nat, size: int)
    requires a < b < n && 0 < size
    ensures 0.0 < ((a + 1) * size) as real / (n + 1) as real < ((b + 1) * size) as real / (n + 1) as real < size as real
  {
    Product(a + 1, b + 1, size);
    Product(b + 1, n + 1, size);
    Quotient(((a + 1) * size) as real, ((b + 1) * size) as real, (n + 1) as real);
    Quotient(0.0, ((a + 1) * size) as real, (n + 1) as real);
    Quotient(((b + 1) * size) as real, ((n + 1) * size) as real, (n + 1) as real);
    Whole(n + 1, size);
  }

  lemma Product(a: int, b: int, size: int)
    requires 0 < a < b && 0 < size
    ensures 0 < a * size < b * size
  {
  }

  lemma Quotient(x: real, y: real, k: real)
    requires x < y && 0.0 < k
    ensures x / k < y / k
  {
    var p, q := x / k, y / k;
    assert p * k == x && q * k == y;
    assert q <= p ==> q * k <= p * k;
  }

  lemma Whole(n: int, size: int)
    requires 0 < n
    ensures (n * size) as real / n as real == size as real
  {
    assert (n * size) as real == n as real * size as real;
  }

  /** Ports of different edges at one stage are different points strictly inside the side of its box,
      in the order of the comparator. */
  lemma PortsSeparate(g: Graph, d: Drawing, out: bool, i: nat, j: nat)
    requires Drawable(g, d) && i < |g.edges| && j < |g.edges|
    requires Here(g.edges[i], out) == Here(g.edges[j], out) && Precedes(g, d, out, i, j)
    ensures 0.0 < Port(g, d, out, i) < Port(g, d, out, j) < NodeSize(d.narrow) as real
  {
    hide Precedes, PortIndex, PortCount, Here;
    PortIndexAscends(g, d, out, i, j, |g.edges|);
    PortIndexBelow(g, d, out, j, |g.edges|);
    Fraction(PortIndex(g, d, out, i, |g.edges|), PortIndex(g, d, out, j, |g.edges|),
             PortCount(g.edges, out, Here(g.edges[i], out), |g.edges|), NodeSize(d.narrow));
  }
}
