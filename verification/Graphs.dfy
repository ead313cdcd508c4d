/** Pipeline graphs as the editor keeps them, and what makes one a valid DAG. */
module Graphs {
  datatype Stage = Stage(id: string, name: string, kind: string)

  type Edge = (string, string)

  datatype Graph = Graph(nodes: seq<Stage>, edges: seq<Edge>)

  ghost function Ids(g: Graph): set<string> { set n | n in g.nodes :: n.id }

  ghost predicate DistinctStages(s: seq<Stage>) { forall i, j | 0 <= i < j < |s| :: s[i].id != s[j].id }

  ghost predicate DistinctIds(g: Graph) { DistinctStages(g.nodes) }

  /** p follows edges from its first stage to its last. */
  ghost predicate IsWalk(es: seq<Edge>, p: seq<string>) {
    0 < |p| && forall i | 0 <= i < |p| - 1 :: (p[i], p[i + 1]) in es
  }

  ghost predicate Acyclic(es: seq<Edge>) {
    forall p | IsWalk(es, p) && 1 < |p| :: p[0] != p[|p| - 1]
  }

  ghost predicate EndpointsIn(es: seq<Edge>, ids: set<string>) { forall e | e in es :: e.0 in ids && e.1 in ids }

  ghost predicate NoRepeats(es: seq<Edge>) { forall i, j | 0 <= i < j < |es| :: es[i] != es[j] }

  ghost predicate ValidDag(g: Graph) {
    g.nodes != [] && DistinctIds(g) && EndpointsIn(g.edges, Ids(g)) && NoRepeats(g.edges) && Acyclic(g.edges)
  }

  // ------------------------------------------------------------------ walks

  lemma {:induction false} Pigeonhole(p: seq<string>, ids: set<string>)
    requires (forall x | x in p :: x in ids) && forall i, j | 0 <= i < j < |p| :: p[i] != p[j]
    ensures |p| <= |ids|
  {
    if p != [] {
      Pigeonhole(p[1..], ids - {p[0]});
    }
  }

  lemma Slice(es: seq<Edge>, p: seq<string>, i: nat, j: nat)
    requires IsWalk(es, p) && i < j <= |p|
    ensures IsWalk(es, p[i..j])
  {
    forall k | 0 <= k < j - i - 1 ensures (p[i..j][k], p[i..j][k + 1]) in es {
      assert (p[i + k], p[i + k + 1]) in es;
    }
  }

  /** Walks of an acyclic graph never meet a stage twice, so they are short. */
  lemma WalksAreShort(es: seq<Edge>, ids: set<string>, p: seq<string>)
    requires Acyclic(es) && IsWalk(es, p) && forall x | x in p :: x in ids
    ensures |p| <= |ids|
  {
    forall i, j | 0 <= i < j < |p| ensures p[i] != p[j] {
      Slice(es, p, i, j + 1);
      assert p[i..j + 1][0] == p[i] && p[i..j + 1][j - i] == p[j];
    }
    Pigeonhole(p, ids);
  }

  ghost predicate HasPredecessor(es: seq<Edge>, s: set<string>, v: string) { exists u | u in s :: (u, v) in es }

  /** If every stage of a non-empty set has a predecessor in the set, there is a cycle. */
  lemma PredecessorsMakeCycle(es: seq<Edge>, s: set<string>)
    requires s != {} && forall v | v in s :: HasPredecessor(es, s, v)
    ensures !Acyclic(es)
  {
    var v :| v in s;
    var p := WalkBack(es, s, v, |s|);
    if Acyclic(es) {
      WalksAreShort(es, s, p);
    }
  }

  lemma {:induction false} WalkBack(es: seq<Edge>, s: set<string>, v: string, n: nat) returns (p: seq<string>)
    requires v in s && forall v | v in s :: HasPredecessor(es, s, v)
    ensures IsWalk(es, p) && |p| == n + 1 && forall x | x in p :: x in s
    decreases n
  {
    if n == 0 {
      p := [v];
    } else {
      var q := WalkBack(es, s, v, n - 1);
      assert q[0] in s && HasPredecessor(es, s, q[0]);
      var u :| u in s && (u, q[0]) in es;
      p := [u] + q;
      forall i | 0 <= i < |p| - 1 ensures (p[i], p[i + 1]) in es {
        if i > 0 {
          assert (q[i - 1], q[i]) in es;
        }
      }
    }
  }

  ghost function PositionIn(order: seq<string>, x: string): (i: nat)
    requires x in order
    ensures i < |order| && order[i] == x && forall j | 0 <= j < i :: order[j] != x
  {
    if order[0] == x then 0 else 1 + PositionIn(order[1..], x)
  }

  /** Every edge leads forward in the order. */
  ghost predicate Topological(order: seq<string>, es: seq<Edge>) {
    forall i, e | 0 <= i < |order| && e in es && e.1 == order[i] :: e.0 in order[..i]
  }

  lemma {:induction false} WalkAscends(order: seq<string>, es: seq<Edge>, p: seq<string>)
    requires Topological(order, es) && IsWalk(es, p) && 1 < |p| && p[|p| - 1] in order
    ensures p[0] in order && PositionIn(order, p[0]) < PositionIn(order, p[|p| - 1])
  {
    var n := |p| - 1;
    var i := PositionIn(order, p[n]);
    assert (p[n - 1], p[n]) in es;
    assert p[n - 1] in order[..i];
    PositionBefore(order, p[n - 1], i);
    if n > 1 {
      Slice(es, p, 0, n);
      assert p[0..n][n - 1] == p[n - 1];
      WalkAscends(order, es, p[0..n]);
    }
  }

  lemma PositionBefore(order: seq<string>, x: string, i: nat)
    requires i <= |order| && x in order[..i]
    ensures x in order && PositionIn(order, x) < i
  {
    var k :| 0 <= k < i && order[..i][k] == x;
    assert order[k] == x;
  }

  /** A topological order of all edge targets rules out cycles. */
  lemma TopologicalIsAcyclic(order: seq<string>, es: seq<Edge>)
    requires Topological(order, es) && forall e | e in es :: e.1 in order
    ensures Acyclic(es)
  {
    forall p | IsWalk(es, p) && 1 < |p| ensures p[0] != p[|p| - 1] {
      assert (p[|p| - 2], p[|p| - 1]) in es;
      WalkAscends(order, es, p);
    }
  }
}
