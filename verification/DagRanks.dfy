/** website/workspace-dag.js:85-90: ranks by repeated relaxation are longest-path lengths. */
module DagRanks {
  import opened Basics
  import opened Graphs

  /** p is a walk of r edges that ends at v. */
  ghost predicate WalkTo(es: seq<Edge>, p: seq<string>, v: string, r: int) {
    IsWalk(es, p) && p[|p| - 1] == v && |p| == r + 1
  }

  ghost predicate Reaches(es: seq<Edge>, v: string, r: int) { exists p :: WalkTo(es, p, v, r) }

  /** r is the number of edges of a longest walk ending at v. */
  ghost predicate IsLongest(es: seq<Edge>, v: string, r: int) {
    Reaches(es, v, r) && forall k | Reaches(es, v, k) :: k <= r
  }

  lemma ReachSelf(es: seq<Edge>, v: string)
    ensures Reaches(es, v, 0)
  {
    assert WalkTo(es, [v], v, 0);
  }

  lemma ReachStep(es: seq<Edge>, e: Edge, r: int)
    requires e in es && Reaches(es, e.0, r)
    ensures Reaches(es, e.1, r + 1)
  {
    var p :| WalkTo(es, p, e.0, r);
    var q := p + [e.1];
    forall i | 0 <= i < |q| - 1 ensures (q[i], q[i + 1]) in es {
      if i < |p| - 1 {
        assert (p[i], p[i + 1]) in es;
      } else {
        assert e == (q[i], q[i + 1]);
      }
    }
    assert WalkTo(es, q, e.1, r + 1);
  }

  /** The last edge of a walk. */
  lemma ReachBack(es: seq<Edge>, v: string, r: int) returns (u: string)
    requires 0 < r && Reaches(es, v, r)
    ensures (u, v) in es && Reaches(es, u, r - 1)
  {
    var p :| WalkTo(es, p, v, r);
    u := p[r - 1];
    Slice(es, p, 0, r);
    assert (p[r - 1], p[r]) in es;
    assert WalkTo(es, p[0..r], u, r - 1);
  }

  lemma ReachBounds(es: seq<Edge>, ids: set<string>, v: string, r: int)
    requires Acyclic(es) && EndpointsIn(es, ids) && v in ids && Reaches(es, v, r)
    ensures 0 <= r < |ids|
  {
    var p :| WalkTo(es, p, v, r);
    forall x | x in p ensures x in ids {
      var i :| 0 <= i < |p| && p[i] == x;
      if i < |p| - 1 {
        assert (p[i], p[i + 1]) in es;
      }
    }
    WalksAreShort(es, ids, p);
  }

  /** Every rank is attained by a walk, and no walk of at most n edges is longer. */
  ghost predicate RanksUpTo(es: seq<Edge>, ids: set<string>, rank: map<string, int>, n: int) {
    && rank.Keys == ids
    && (forall v | v in ids :: Reaches(es, v, rank[v]))
    && forall v, k | v in ids && k <= n && Reaches(es, v, k) :: k <= rank[v]
  }

  /** One round: relax every edge once, in order, in place. */
  method Relax(es: seq<Edge>, rank0: map<string, int>, ghost ids: set<string>, ghost n: nat)
    returns (rank: map<string, int>)
    requires EndpointsIn(es, ids) && RanksUpTo(es, ids, rank0, n)
    ensures RanksUpTo(es, ids, rank, n + 1)
  {
    hide Reaches;
    rank := rank0;
    var j := 0;
    while j < |es|
      invariant 0 <= j <= |es|
      invariant rank.Keys == ids
      invariant forall v | v in ids :: Reaches(es, v, rank[v]) && rank0[v] <= rank[v]
      invariant forall i | 0 <= i < j :: rank0[es[i].0] + 1 <= rank[es[i].1]
    {
      var e := es[j];
      ReachStep(es, e, rank[e.0]);
      rank := rank[e.1 := Max(rank[e.1], rank[e.0] + 1)];
      j := j + 1;
    }
    forall v, k | v in ids && k <= n + 1 && Reaches(es, v, k) ensures k <= rank[v] {
      if k == n + 1 {
        var u := ReachBack(es, v, k);
        var i :| 0 <= i < |es| && es[i] == (u, v);
        assert n <= rank0[u];
      }
    }
  }

  lemma StartRanks(g: Graph, rank: map<string, int>)
    requires ValidDag(g) && rank.Keys == Ids(g) && forall v | v in Ids(g) :: rank[v] == 0
    ensures RanksUpTo(g.edges, Ids(g), rank, 0)
  {
    forall v | v in Ids(g) ensures Reaches(g.edges, v, 0) {
      ReachSelf(g.edges, v);
    }
  }

  lemma EnoughRounds(g: Graph, rank: map<string, int>)
    requires ValidDag(g) && RanksUpTo(g.edges, Ids(g), rank, |g.nodes|)
    ensures Ranked(g, rank)
  {
    hide Reaches;
    IdCount(g.nodes);
    forall v, k | v in Ids(g) && Reaches(g.edges, v, k) ensures k <= rank[v] {
      ReachBounds(g.edges, Ids(g), v, k);
    }
  }

  method Ranks(g: Graph) returns (rank: map<string, int>)
    requires ValidDag(g)
    ensures Ranked(g, rank)
  {
    hide RanksUpTo, Ranked, Acyclic, DistinctIds, NoRepeats;
    rank := map n | n in g.nodes :: n.id := 0;
    StartRanks(g, rank);
    var i := 0;
    while i < |g.nodes|
      invariant 0 <= i <= |g.nodes|
      invariant RanksUpTo(g.edges, Ids(g), rank, i)
    {
      rank := Relax(g.edges, rank, Ids(g), i);
      i := i + 1;
    }
    EnoughRounds(g, rank);
  }

  lemma {:induction false} IdCount(nodes: seq<Stage>)
    ensures |set n | n in nodes :: n.id| <= |nodes|
  {
    if nodes != [] {
      var rest := nodes[1..];
      IdCount(rest);
      assert (set n | n in nodes :: n.id) == (set n | n in rest :: n.id) + {nodes[0].id};
    }
  }

  // ------------------------------------------------------------ what ranks are good for

  ghost predicate Ranked(g: Graph, rank: map<string, int>) {
    rank.Keys == Ids(g) && forall v | v in Ids(g) :: IsLongest(g.edges, v, rank[v])
  }

  lemma EdgesAscend(g: Graph, rank: map<string, int>, e: Edge)
    requires ValidDag(g) && Ranked(g, rank) && e in g.edges
    ensures rank[e.0] < rank[e.1]
  {
    ReachStep(g.edges, e, rank[e.0]);
  }

  lemma RankBounds(g: Graph, rank: map<string, int>, v: string)
    requires ValidDag(g) && Ranked(g, rank) && v in Ids(g)
    ensures 0 <= rank[v] < |g.nodes|
  {
    ReachBounds(g.edges, Ids(g), v, rank[v]);
    IdCount(g.nodes);
  }

  /** Ranks have no gaps: below a stage of rank r, every smaller rank is used. */
  lemma {:induction false} NoGaps(g: Graph, rank: map<string, int>, v: string, k: int)
    requires ValidDag(g) && Ranked(g, rank) && v in Ids(g) && 0 <= k <= rank[v]
    ensures exists u :: u in Ids(g) && rank[u] == k
    decreases rank[v]
  {
    if k < rank[v] {
      var u := ReachBack(g.edges, v, rank[v]);
      EdgesAscend(g, rank, (u, v));
      assert rank[v] - 1 <= rank[u];
      NoGaps(g, rank, u, k);
    }
  }
}
