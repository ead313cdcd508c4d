/** website/workspace-dag.js:102-128: the drawn routes of edges that skip ranks, leg by leg, against the boxes. */
module DagRoutes {
  import opened Graphs
  import opened DagLayout
  import opened DagGeometry

  /** A straight piece of a route: with the ranks, at one coordinate across the drawing, or across it. */
  datatype Leg = Onward(cross: real, from: real, to: real) | Sideways(along: real, from: real, to: real)

  /** Coordinate in the direction of the ranks. */
  function Along(p: Point, narrow: bool): int { if narrow then p.y else p.x }

  function BoxLength(narrow: bool): int { if narrow then NODE_HEIGHT else NODE_WIDTH }

  /** From one column of boxes to the next. */
  function Pitch(narrow: bool): int { if narrow then 224 else 256 }

  /** The intervals from a to b and from lo to hi overlap in more than a point. */
  predicate Overlap(a: real, b: real, lo: real, hi: real) {
    (if a < b then a else b) < hi && lo < (if a < b then b else a)
  }

  /** The leg meets the inside of the box at p. */
  predicate Crosses(l: Leg, p: Point, narrow: bool) {
    var a, c := Along(p, narrow) as real, Cross(p, narrow) as real;
    var a', c' := a + BoxLength(narrow) as real, c + NodeSize(narrow) as real;
    match l
    case Onward(cross, from, to) => c < cross < c' && Overlap(from, to, a, a')
    case Sideways(along, from, to) => a < along < a' && Overlap(from, to, c, c')
  }

  /** How far the first and the last sideways leg keep from their boxes; an arrowhead takes 7 of the last. */
  function Lead(lane: int): int { 24 + lane * 10 }

  /** The five pieces of the path of a skipping edge. */
  function Route(d: Drawing, c: Connection): seq<Leg>
    requires c.from in d.positions && c.to in d.positions
  {
    var a, b := d.positions[c.from], d.positions[c.to];
    var start, end := (Along(a, d.narrow) + BoxLength(d.narrow)) as real, (Along(b, d.narrow) - 7) as real;
    var leave, enter := Cross(a, d.narrow) as real + c.outPort, Cross(b, d.narrow) as real + c.inPort;
    var first, last := start + Lead(c.lane) as real, end - Lead(c.lane) as real;
    [Onward(leave, start, first), Sideways(first, leave, c.bypass as real), Onward(c.bypass as real, first, last),
     Sideways(last, c.bypass as real, enter), Onward(enter, last, end)]
  }

  predicate RouteCrosses(d: Drawing, c: Connection, p: Point)
    requires c.from in d.positions && c.to in d.positions
  {
    exists i | 0 <= i < 5 :: Crosses(Route(d, c)[i], p, d.narrow)
  }

  /** The box at p lies between the lane and the coordinate port. */
  predicate InWay(d: Drawing, c: Connection, p: Point, port: real) {
    if c.side < 0 then Cross(p, d.narrow) as real < port else port < (Cross(p, d.narrow) + NodeSize(d.narrow)) as real
  }

  // ------------------------------------------------------------------------ geometry

  /** Columns of boxes stand at equal distances. */
  lemma AlongRank(g: Graph, d: Drawing, max: int, v: string)
    requires IsDrawing(g, d, max) && v in Ids(g)
    ensures v in d.rank && v in d.positions
    ensures Along(d.positions[v], d.narrow) == (if d.narrow then 46 else 32) + d.rank[v] * Pitch(d.narrow)
  {
    var r, i := PlaceOf(g, d, max, v);
    hide IsDrawing;
  }

  lemma RankSteps(narrow: bool, r: int, s: int)
    ensures s <= r ==> s * Pitch(narrow) <= r * Pitch(narrow)
    ensures r < s ==> r * Pitch(narrow) + Pitch(narrow) <= s * Pitch(narrow)
  {
  }

  /** The coordinate t, counted from the first column, lies inside the column of rank r. */
  predicate WithinColumn(narrow: bool, t: int, r: int) { r * Pitch(narrow) < t < r * Pitch(narrow) + BoxLength(narrow) }

  /** The coordinate port runs through the box at p. */
  predicate Level(p: Point, narrow: bool, port: real) {
    Cross(p, narrow) as real < port < (Cross(p, narrow) + NodeSize(narrow)) as real
  }

  /** Where the route turns to its lane, and back, counted from the first column. */
  function FirstTurn(narrow: bool, rank: int, lane: int): int { rank * Pitch(narrow) + BoxLength(narrow) + Lead(lane) }

  function LastTurn(narrow: bool, rank: int, lane: int): int { rank * Pitch(narrow) - 7 - Lead(lane) }

  /** The leg that leaves the source, and the one that turns to the lane. */
  lemma LeavingLegs(d: Drawing, c: Connection, base: int, r: int, s: int, box: Point, leave: real)
    requires 0 < Lead(c.lane) && Along(box, d.narrow) == base + s * Pitch(d.narrow) && Beside(d, c, box)
    ensures var start := (base + r * Pitch(d.narrow) + BoxLength(d.narrow)) as real;
            var first := start + Lead(c.lane) as real;
            && (Crosses(Sideways(first, leave, c.bypass as real), box, d.narrow)
                <==> WithinColumn(d.narrow, FirstTurn(d.narrow, r, c.lane), s) && InWay(d, c, box, leave))
            && (Crosses(Onward(leave, start, first), box, d.narrow)
                <==> r < s && s * Pitch(d.narrow) < FirstTurn(d.narrow, r, c.lane) && Level(box, d.narrow, leave))
  {
    RankSteps(d.narrow, r, s);
    RankSteps(d.narrow, s, r);
  }

  /** The same at the other end; here the arrowhead takes 7. */
  lemma EnteringLegs(d: Drawing, c: Connection, base: int, r: int, s: int, box: Point, enter: real)
    requires 0 < Lead(c.lane) && Along(box, d.narrow) == base + s * Pitch(d.narrow) && Beside(d, c, box)
    ensures var end := (base + r * Pitch(d.narrow) - 7) as real;
            var last := end - Lead(c.lane) as real;
            && (Crosses(Sideways(last, c.bypass as real, enter), box, d.narrow)
                <==> WithinColumn(d.narrow, LastTurn(d.narrow, r, c.lane), s) && InWay(d, c, box, enter))
            && (Crosses(Onward(enter, last, end), box, d.narrow)
                <==> s < r && LastTurn(d.narrow, r, c.lane) < s * Pitch(d.narrow) + BoxLength(d.narrow)
                     && Level(box, d.narrow, enter))
  {
    RankSteps(d.narrow, r, s);
    RankSteps(d.narrow, s, r);
  }

  /** The lane of c passes the box at p on its own side. */
  predicate Beside(d: Drawing, c: Connection, p: Point) {
    || (c.side < 0 && c.bypass < Cross(p, d.narrow))
    || (c.side > 0 && Cross(p, d.narrow) + NodeSize(d.narrow) < c.bypass)
  }

  /** Which boxes the route of a skipping edge crosses: those whose column a turn falls into and that lie between the
      lane and the port, and those on the way from a port to its turn. */
  ghost predicate Obstructs(d: Drawing, c: Connection, v: string)
    requires c.from in d.positions && c.to in d.positions && c.from in d.rank && c.to in d.rank
    requires v in d.rank && v in d.positions
  {
    var p, r := d.positions[v], d.rank[v];
    var leave := Cross(d.positions[c.from], d.narrow) as real + c.outPort;
    var enter := Cross(d.positions[c.to], d.narrow) as real + c.inPort;
    var first, last := FirstTurn(d.narrow, d.rank[c.from], c.lane), LastTurn(d.narrow, d.rank[c.to], c.lane);
    || (WithinColumn(d.narrow, first, r) && InWay(d, c, p, leave))
    || (WithinColumn(d.narrow, last, r) && InWay(d, c, p, enter))
    || (d.rank[c.from] < r && r * Pitch(d.narrow) < first && Level(p, d.narrow, leave))
    || (r < d.rank[c.to] && last < r * Pitch(d.narrow) + BoxLength(d.narrow) && Level(p, d.narrow, enter))
  }

  lemma RouteCrossesIff(g: Graph, d: Drawing, max: int, i: nat, c: Connection, v: string)
    requires IsDrawing(g, d, max) && Drawable(g, d) && i < |g.edges| && LaneCorrect(g, d, i, c) && c.skip && v in Ids(g)
    ensures c.from in d.positions && c.to in d.positions && c.from in d.rank && c.to in d.rank
    ensures v in d.rank && v in d.positions
    ensures RouteCrosses(d, c, d.positions[v]) <==> Obstructs(d, c, v)
  {
    hide IsDrawing, Lanes, Crosses, Bypass, WithinColumn, InWay, Level, FirstTurn, LastTurn;
    assert g.edges[i] in g.edges;
    AlongRank(g, d, max, c.from);
    AlongRank(g, d, max, c.to);
    AlongRank(g, d, max, v);
    LaneMissesBoxes(g, d, max, i, c, v);
    var p, base := d.positions[v], if d.narrow then 46 else 32;
    var leave := Cross(d.positions[c.from], d.narrow) as real + c.outPort;
    var enter := Cross(d.positions[c.to], d.narrow) as real + c.inPort;
    LeavingLegs(d, c, base, d.rank[c.from], d.rank[v], p, leave);
    EnteringLegs(d, c, base, d.rank[c.to], d.rank[v], p, enter);
    var route := Route(d, c);
    LaneLeg(d, c, p, route[2]);
    assert RouteCrosses(d, c, p) <==> Crosses(route[0], p, d.narrow) || Crosses(route[1], p, d.narrow)
                                      || Crosses(route[2], p, d.narrow) || Crosses(route[3], p, d.narrow)
                                      || Crosses(route[4], p, d.narrow);
  }

  lemma LaneLeg(d: Drawing, c: Connection, p: Point, leg: Leg)
    requires leg.Onward? && leg.cross == c.bypass as real
    requires c.bypass < Cross(p, d.narrow) || Cross(p, d.narrow) + NodeSize(d.narrow) < c.bypass
    ensures !Crosses(leg, p, d.narrow)
  {
  }

  lemma TurnsBetweenColumns(narrow: bool, r: int, s: int, lane: int)
    requires 0 <= lane <= if narrow then 7 else 5
    ensures !WithinColumn(narrow, FirstTurn(narrow, r, lane), s)
            && (r < s ==> FirstTurn(narrow, r, lane) <= s * Pitch(narrow))
    ensures !WithinColumn(narrow, LastTurn(narrow, r, lane), s)
            && (s < r ==> s * Pitch(narrow) + BoxLength(narrow) <= LastTurn(narrow, r, lane))
  {
    RankSteps(narrow, r, s);
    RankSteps(narrow, s, r);
  }

  /** The first lanes, up to number 5 in the wide and 7 in the narrow drawing, turn between the columns: the whole route
      of a skipping edge on such a lane keeps clear of every box. */
  lemma RouteMissesBoxes(g: Graph, d: Drawing, max: int, i: nat, c: Connection, v: string)
    requires IsDrawing(g, d, max) && Drawable(g, d) && i < |g.edges| && LaneCorrect(g, d, i, c) && c.skip && v in Ids(g)
    requires c.lane <= if d.narrow then 7 else 5
    ensures c.from in d.positions && c.to in d.positions && v in d.positions && !RouteCrosses(d, c, d.positions[v])
  {
    hide IsDrawing, Lanes, Crosses, Bypass, RouteCrosses, WithinColumn, InWay, Level, FirstTurn, LastTurn;
    RouteCrossesIff(g, d, max, i, c, v);
    TurnsBetweenColumns(d.narrow, d.rank[c.from], d.rank[v], c.lane);
    TurnsBetweenColumns(d.narrow, d.rank[c.to], d.rank[v], c.lane);
  }
}
