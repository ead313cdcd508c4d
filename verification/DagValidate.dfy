/** website/workspace-dag.js: validate, with Kahn's loop, against the declarative notion of a valid DAG. */
module DagValidate {
  import opened Basics
  import opened Graphs
  import opened Text

  datatype Problem = NoStage | DuplicateId | MissingStage | SelfEdge | RepeatedEdge | Loop

  /** The string the code uses to recognise a repeated edge. */
  function Key(e: Edge): string { e.0 + ">" + e.1 }

  ghost predicate KeysDistinct(es: seq<Edge>) { forall i, j | 0 <= i < j < |es| :: Key(es[i]) != Key(es[j]) }

  // --------------------------------------------------------------- the retained edges

  ghost predicate Retains(es: seq<Edge>, e: Edge, ids: set<string>) {
    e.0 in ids && e.1 in ids && forall f | f in es :: Key(f) != Key(e)
  }

  /** Edges between existing stages, without those whose key was seen before. */
  ghost function Retained(es: seq<Edge>, ids: set<string>): (r: seq<Edge>)
    ensures EndpointsIn(r, ids)
    ensures forall e | e in r :: e in es
  {
    if es == [] then []
    else
      var r, e := Retained(es[..|es| - 1], ids), es[|es| - 1];
      if Retains(r, e, ids) then r + [e] else r
  }

  ghost function Targets(es: seq<Edge>, u: string): seq<string> {
    if es == [] then []
    else
      var e := es[|es| - 1];
      Targets(es[..|es| - 1], u) + (if e.0 == u then [e.1] else [])
  }

  /** Number of edges into v whose source is not done. */
  ghost function InDegree(es: seq<Edge>, v: string, done: set<string>): nat {
    if es == [] then 0
    else
      var e := es[|es| - 1];
      InDegree(es[..|es| - 1], v, done) + (if e.1 == v && e.0 !in done then 1 else 0)
  }

  lemma {:induction false} DegreeZero(es: seq<Edge>, v: string, done: set<string>)
    ensures InDegree(es, v, done) == 0 <==> forall e | e in es && e.1 == v :: e.0 in done
  {
    if es != [] {
      var init, e := es[..|es| - 1], es[|es| - 1];
      DegreeZero(init, v, done);
      assert es == init + [e];
    }
  }

  /** Finishing u lowers the degree of v by the number of edges from u to v. */
  lemma {:induction false} DegreeDrop(es: seq<Edge>, v: string, done: set<string>, u: string)
    requires u !in done
    ensures InDegree(es, v, done) == InDegree(es, v, done + {u}) + multiset(Targets(es, u))[v]
  {
    if es != [] {
      DegreeDrop(es[..|es| - 1], v, done, u);
    }
  }

  // ------------------------------------------------------------------- Kahn's loop

  lemma TopologicalSnoc(order: seq<string>, es: seq<Edge>, u: string)
    requires Topological(order, es) && forall e | e in es && e.1 == u :: e.0 in order
    ensures Topological(order + [u], es)
  {
    forall i, e | 0 <= i < |order| + 1 && e in es && e.1 == (order + [u])[i] ensures e.0 in (order + [u])[..i] {
      assert (order + [u])[..i] == order[..i];
    }
  }

  lemma DistinctWithin(s: seq<string>, ids: seq<string>)
    requires Distinct(s) && Distinct(ids) && forall x | x in s :: x in ids
    ensures |s| <= |ids|
    ensures |s| == |ids| ==> forall x | x in ids :: x in s
  {
    var all := set x | x in ids;
    SetOfDistinct(ids);
    Pigeonhole(s, all);
    forall x | x in ids && x !in s ensures |s| < |ids| {
      Pigeonhole(s, all - {x});
    }
  }

  lemma {:induction false} SetOfDistinct(s: seq<string>)
    requires Distinct(s)
    ensures |set x | x in s| == |s|
  {
    if s != [] {
      var rest := s[1..];
      SetOfDistinct(rest);
      assert (set x | x in s) == (set x | x in rest) + {s[0]};
    }
  }

  /** Degrees while u's outgoing edges ts are being followed; ts[i..] are still to come. */
  ghost predicate Degrees(es: seq<Edge>, ids: seq<string>, degree: map<string, int>, done: set<string>, ts: seq<string>)
  {
    && (forall v | v in ids :: v in degree)
    && forall v | v in ids :: degree[v] == InDegree(es, v, done) + multiset(ts)[v]
  }

  /** Exactly the stages of reached have degree zero. */
  ghost predicate Frontier(ids: seq<string>, degree: map<string, int>, reached: seq<string>) {
    && Distinct(reached) && (forall x | x in reached :: x in ids)
    && forall v | v in ids :: v in degree && (degree[v] == 0 <==> v in reached)
  }

  /** The inner loop: follow the edges out of one stage and queue the stages that become ready. */
  method Follow(ids: seq<string>, ghost es: seq<Edge>, ts: seq<string>, degree0: map<string, int>, queue0: seq<string>,
                ghost done: set<string>, ghost before: seq<string>)
    returns (degree: map<string, int>, queue: seq<string>)
    requires forall t | t in ts :: t in ids
    requires Degrees(es, ids, degree0, done, ts) && Frontier(ids, degree0, before + queue0)
    ensures Degrees(es, ids, degree, done, []) && Frontier(ids, degree, before + queue)
  {
    hide InDegree, Degrees, Frontier;
    degree, queue := degree0, queue0;
    var i := 0;
    assert ts[0..] == ts;
    while i < |ts|
      invariant 0 <= i <= |ts|
      invariant Degrees(es, ids, degree, done, ts[i..]) && Frontier(ids, degree, before + queue)
    {
      var next := ts[i];
      assert ts[i..] == [next] + ts[i + 1..];
      FollowOne(ids, es, ts[i + 1..], degree, done, before, queue, next);
      degree := degree[next := degree[next] - 1];
      if degree[next] == 0 {
        queue := queue + [next];
      }
      i := i + 1;
    }
    assert ts[i..] == [];
  }

  /** Counting down one edge, and queueing its target when it was the last. */
  lemma FollowOne(ids: seq<string>, es: seq<Edge>, rest: seq<string>, degree: map<string, int>, done: set<string>,
                  before: seq<string>, queue: seq<string>, next: string)
    requires next in ids && Degrees(es, ids, degree, done, [next] + rest) && Frontier(ids, degree, before + queue)
    ensures next in degree
    ensures var degree' := degree[next := degree[next] - 1];
            Degrees(es, ids, degree', done, rest)
            && Frontier(ids, degree', before + (if degree'[next] == 0 then queue + [next] else queue))
  {
    hide InDegree;
    CountDown(ids, es, rest, degree, done, next);
    assert degree[next] > 0;
    hide Degrees;
    assert next !in before + queue;
    assert before + (queue + [next]) == (before + queue) + [next];
  }

  lemma CountDown(ids: seq<string>, es: seq<Edge>, rest: seq<string>, degree: map<string, int>, done: set<string>,
                  next: string)
    requires next in ids && Degrees(es, ids, degree, done, [next] + rest)
    ensures next in degree && degree[next] > 0 && Degrees(es, ids, degree[next := degree[next] - 1], done, rest)
  {
    hide InDegree;
    assert multiset([next] + rest) == multiset{next} + multiset(rest);
  }

  /** Taking the first stage off the queue: all its predecessors are done, and its own edges are pending. */
  lemma TakeFirst(ids: seq<string>, es: seq<Edge>, degree: map<string, int>, order: seq<string>, queue: seq<string>,
                  done: set<string>)
    requires EndpointsIn(es, set x | x in ids) && done == set x | x in order
    requires Degrees(es, ids, degree, done, []) && Frontier(ids, degree, order + queue) && Topological(order, es)
    requires queue != []
    ensures var id := queue[0];
            && id in ids && (forall t | t in Targets(es, id) :: t in ids)
            && Topological(order + [id], es)
            && Degrees(es, ids, degree, done + {id}, Targets(es, id))
            && Frontier(ids, degree, order + [id] + queue[1..])
  {
    hide InDegree;
    var id, reached := queue[0], order + queue;
    assert reached[|order|] == id && id in reached;
    assert id !in order by {
      assert forall j | 0 <= j < |order| :: reached[j] == order[j];
    }
    assert order + [id] + queue[1..] == reached;
    DegreeZero(es, id, done);
    TopologicalSnoc(order, es, id);
    forall v | v in ids ensures degree[v] == InDegree(es, v, done + {id}) + multiset(Targets(es, id))[v] {
      DegreeDrop(es, v, done, id);
    }
    TargetsIn(es, id, set x | x in ids);
  }

  lemma ReachedFits(ids: seq<string>, degree: map<string, int>, reached: seq<string>)
    requires Distinct(ids) && Frontier(ids, degree, reached)
    ensures |reached| <= |ids|
  {
    DistinctWithin(reached, ids);
  }

  method Kahn(ids: seq<string>, adjacency: map<string, seq<string>>, degree0: map<string, int>, ghost es: seq<Edge>)
    returns (visited: nat)
    requires Distinct(ids) && EndpointsIn(es, set x | x in ids)
    requires forall u | u in ids :: u in adjacency && adjacency[u] == Targets(es, u)
    requires forall v | v in ids :: v in degree0 && degree0[v] == InDegree(es, v, {})
    ensures visited == |ids| <==> Acyclic(es)
  {
    hide InDegree, Targets, Frontier, Topological, Acyclic, Distinct;
    var degree := degree0;
    var queue := ZeroDegree(ids, degree);
    visited := 0;
    ghost var order: seq<string> := [];
    ghost var done: set<string> := {};
    assert [] + queue == queue;
    NothingOrdered(es);
    while queue != []
      invariant visited == |order| && done == set x | x in order
      invariant Degrees(es, ids, degree, done, []) && Frontier(ids, degree, order + queue)
      invariant Topological(order, es)
      decreases |ids| - |order|
    {
      ReachedFits(ids, degree, order + queue);
      TakeFirst(ids, es, degree, order, queue, done);
      var id := queue[0];
      queue := queue[1..];
      visited := visited + 1;
      order := order + [id];
      done := done + {id};
      degree, queue := Follow(ids, es, adjacency[id], degree, queue, done, order);
    }
    assert order + [] == order;
    KahnVerdict(ids, es, degree, order, done);
  }

  lemma NothingOrdered(es: seq<Edge>)
    ensures Topological([], es)
  {
  }

  method ZeroDegree(ids: seq<string>, degree: map<string, int>) returns (queue: seq<string>)
    requires Distinct(ids) && forall v | v in ids :: v in degree
    ensures Frontier(ids, degree, queue)
    ensures |queue| <= |ids|
  {
    queue := [];
    var i := 0;
    while i < |ids|
      invariant 0 <= i <= |ids| && |queue| <= i && Distinct(queue)
      invariant forall x | x in queue :: x in ids[..i]
      invariant forall v | v in ids[..i] :: degree[v] == 0 <==> v in queue
    {
      assert ids[..i + 1] == ids[..i] + [ids[i]];
      if degree[ids[i]] == 0 {
        queue := queue + [ids[i]];
      }
      i := i + 1;
    }
    assert ids[..i] == ids;
  }

  lemma {:induction false} TargetsIn(es: seq<Edge>, u: string, ids: set<string>)
    requires EndpointsIn(es, ids)
    ensures forall t | t in Targets(es, u) :: t in ids
  {
    if es != [] {
      TargetsIn(es[..|es| - 1], u, ids);
    }
  }

  lemma KahnVerdict(ids: seq<string>, es: seq<Edge>, degree: map<string, int>, order: seq<string>, done: set<string>)
    requires Distinct(ids) && EndpointsIn(es, set x | x in ids) && done == set x | x in order
    requires Degrees(es, ids, degree, done, []) && Frontier(ids, degree, order) && Topological(order, es)
    ensures |order| == |ids| <==> Acyclic(es)
  {
    hide InDegree;
    DistinctWithin(order, ids);
    if |order| == |ids| {
      TopologicalIsAcyclic(order, es);
    } else {
      var rest := (set x | x in ids) - done;
      if rest == {} {
        forall x | x in ids ensures x in order {
          assert x !in rest;
        }
        DistinctWithin(ids, order);
      }
      forall v | v in rest ensures HasPredecessor(es, rest, v) {
        DegreeZero(es, v, done);
        var e :| e in es && e.1 == v && e.0 !in done;
        assert e == (e.0, v);
      }
      PredecessorsMakeCycle(es, rest);
    }
  }

  // ---------------------------------------------------------------------- validate

  ghost predicate Exists(e: Edge, ids: set<string>) { e.0 in ids && e.1 in ids }

  /** Two edges between existing stages have the same key. */
  ghost predicate SameKeys(es: seq<Edge>, ids: set<string>) {
    exists i, j | 0 <= i < j < |es| :: Exists(es[i], ids) && Exists(es[j], ids) && Key(es[i]) == Key(es[j])
  }

  /** Problems found while going through the edges. */
  ghost predicate EdgeProblem(es: seq<Edge>, ids: set<string>, p: Problem) {
    match p
    case MissingStage => exists e | e in es :: !Exists(e, ids)
    case SelfEdge => exists e | e in es :: Exists(e, ids) && e.0 == e.1
    case RepeatedEdge => SameKeys(es, ids)
    case _ => false
  }

  /** What each message of validate means. */
  ghost predicate HasProblem(g: Graph, p: Problem) {
    match p
    case NoStage => g.nodes == []
    case DuplicateId => !DistinctIds(g)
    case Loop => !Acyclic(Retained(g.edges, Ids(g)))
    case _ => EdgeProblem(g.edges, Ids(g), p)
  }

  lemma {:induction false} RetainedKeys(es: seq<Edge>, ids: set<string>, k: string)
    ensures (exists f | f in Retained(es, ids) :: Key(f) == k) <==> exists e | e in es :: Exists(e, ids) && Key(e) == k
  {
    if es != [] {
      var init, e := es[..|es| - 1], es[|es| - 1];
      RetainedKeys(init, ids, k);
      RetainedKeys(init, ids, Key(e));
      assert es == init + [e];
      var r := Retained(init, ids);
      if Retains(r, e, ids) {
        assert e in r + [e];
      }
      assert forall f | f in Retained(es, ids) :: f in r || f == e;
      assert forall f | f in r :: f in Retained(es, ids);
    }
  }

  lemma SameKeysSnoc(es: seq<Edge>, e: Edge, ids: set<string>)
    ensures SameKeys(es + [e], ids) <==>
            SameKeys(es, ids) || (Exists(e, ids) && exists f | f in es :: Exists(f, ids) && Key(f) == Key(e))
  {
    hide Key;
    var all := es + [e];
    if SameKeys(all, ids) {
      var a, b :| 0 <= a < b < |all| && Exists(all[a], ids) && Exists(all[b], ids) && Key(all[a]) == Key(all[b]);
      assert all[a] == es[a] && es[a] in es;
      assert b < |es| ==> all[b] == es[b];
    }
    if SameKeys(es, ids) {
      var a, b :| 0 <= a < b < |es| && Exists(es[a], ids) && Exists(es[b], ids) && Key(es[a]) == Key(es[b]);
      assert all[a] == es[a] && all[b] == es[b];
    }
    if f :| Exists(e, ids) && f in es && Exists(f, ids) && Key(f) == Key(e) {
      var a :| 0 <= a < |es| && es[a] == f;
      assert all[a] == f && all[|es|] == e;
    }
  }

  lemma ProblemSnoc(es: seq<Edge>, i: nat, ids: set<string>, p: Problem)
    requires i < |es|
    ensures EdgeProblem(es[..i + 1], ids, p) <==>
            || EdgeProblem(es[..i], ids, p)
            || (p == MissingStage && !Exists(es[i], ids))
            || (p == SelfEdge && Exists(es[i], ids) && es[i].0 == es[i].1)
            || (p == RepeatedEdge && Exists(es[i], ids)
                && exists f | f in Retained(es[..i], ids) :: Key(f) == Key(es[i]))
  {
    hide Key, Retained, SameKeys;
    assert es[..i + 1] == es[..i] + [es[i]];
    RetainedKeys(es[..i], ids, Key(es[i]));
    SameKeysSnoc(es[..i], es[i], ids);
  }

  function FirstAt<T(==)>(values: seq<T>, x: T): (i: nat)
    requires x in values
    ensures i < |values| && values[i] == x && forall j | 0 <= j < i :: values[j] != x
  {
    if values[0] == x then 0 else 1 + FirstAt(values[1..], x)
  }

  /** out lists the values before position i, each once, in the order of first occurrences. */
  ghost predicate Firsts<T(!new)>(values: seq<T>, out: seq<T>, i: nat) {
    && i <= |values| && (forall x :: x in out <==> x in values[..i])
    && (forall k | 0 <= k < |out| :: out[k] in values && FirstAt(values, out[k]) < i)
    && forall j, k | 0 <= j < k < |out| :: FirstAt(values, out[j]) < FirstAt(values, out[k])
  }

  /** Of the values before position i all are kept, or two are equal. */
  ghost predicate AllKept<T>(values: seq<T>, out: seq<T>, i: nat) {
    && i <= |values| && |out| <= i && (|out| == i ==> out == values[..i])
    && (|out| < i ==> exists a, b | 0 <= a < b < i :: values[a] == values[b])
  }

  lemma FirstHere<T>(values: seq<T>, i: nat)
    requires i < |values| && values[i] !in values[..i]
    ensures FirstAt(values, values[i]) == i
  {
    hide FirstAt;
    assert forall a | 0 <= a < i :: values[a] in values[..i];
  }

  lemma OneMore<T(!new)>(values: seq<T>, out: seq<T>, i: nat)
    requires Firsts(values, out, i) && i < |values|
    ensures Firsts(values, if values[i] in out then out else out + [values[i]], i + 1)
  {
    hide FirstAt;
    var x := values[i];
    assert values[..i + 1] == values[..i] + [x];
    if x !in out {
      FirstHere(values, i);
    }
  }

  lemma OneMoreKept<T(!new)>(values: seq<T>, out: seq<T>, i: nat)
    requires Firsts(values, out, i) && AllKept(values, out, i) && i < |values|
    ensures AllKept(values, if values[i] in out then out else out + [values[i]], i + 1)
  {
    hide FirstAt;
    if values[i] in out {
      var a :| 0 <= a < |values[..i]| && values[..i][a] == values[i];
      assert values[a] == values[i];
    } else {
      assert values[..i + 1] == values[..i] + [values[i]];
    }
  }

  lemma NothingKept<T(!new)>(values: seq<T>)
    ensures Firsts(values, [], 0) && AllKept(values, [], 0)
  {
  }

  lemma AllFirsts<T(!new)>(values: seq<T>, out: seq<T>)
    requires Firsts(values, out, |values|)
    ensures forall x :: x in out <==> x in values
    ensures forall j, k | 0 <= j < k < |out| :: FirstAt(values, out[j]) < FirstAt(values, out[k])
    ensures forall j, k | 0 <= j < k < |out| :: out[j] != out[k]
  {
    hide FirstAt;
    assert values[..|values|] == values;
  }

  lemma KeptIff<T>(values: seq<T>, out: seq<T>)
    requires AllKept(values, out, |values|) && forall j, k | 0 <= j < k < |out| :: out[j] != out[k]
    ensures |out| == |values| <==> forall i, j | 0 <= i < j < |values| :: values[i] != values[j]
  {
    assert values[..|values|] == values;
  }

  /** [...new Set(values)]: every value once, in the order of first occurrences. */
  method Dedup<T(==, !new)>(values: seq<T>) returns (out: seq<T>)
    ensures forall x :: x in out <==> x in values
    ensures forall j, k | 0 <= j < k < |out| :: FirstAt(values, out[j]) < FirstAt(values, out[k])
    ensures forall i, j | 0 <= i < j < |out| :: out[i] != out[j]
    ensures |out| == |values| <==> forall i, j | 0 <= i < j < |values| :: values[i] != values[j]
  {
    hide FirstAt, Firsts, AllKept;
    out := [];
    NothingKept(values);
    var i := 0;
    while i < |values|
      invariant i <= |values| && Firsts(values, out, i) && AllKept(values, out, i)
    {
      OneMore(values, out, i);
      OneMoreKept(values, out, i);
      if values[i] !in out {
        out := out + [values[i]];
      }
      i := i + 1;
    }
    AllFirsts(values, out);
    KeptIff(values, out);
  }

  ghost predicate Reports(errors: seq<Problem>, es: seq<Edge>, ids: set<string>) {
    forall p :: p in errors <==> EdgeProblem(es, ids, p)
  }

  /** The keys of es. */
  ghost predicate Seen(seen: set<string>, es: seq<Edge>) {
    forall k :: k in seen <==> exists f | f in es :: Key(f) == k
  }

  lemma ReportsSnoc(edges: seq<Edge>, i: nat, ids: set<string>, seen: set<string>, errors: seq<Problem>,
                    errors': seq<Problem>)
    requires i < |edges| && Reports(errors, edges[..i], ids) && Seen(seen, Retained(edges[..i], ids))
    requires var e := edges[i];
             errors' == if !Exists(e, ids) then errors + [MissingStage]
                        else errors + (if e.0 == e.1 then [SelfEdge] else [])
                             + (if Key(e) in seen then [RepeatedEdge] else [])
    ensures Reports(errors', edges[..i + 1], ids)
  {
    hide EdgeProblem, Retained, Key;
    forall p ensures p in errors' <==> EdgeProblem(edges[..i + 1], ids, p) {
      ProblemSnoc(edges, i, ids, p);
    }
  }

  lemma RetainedSnoc(edges: seq<Edge>, i: nat, ids: set<string>, seen: set<string>)
    requires i < |edges| && Seen(seen, Retained(edges[..i], ids))
    ensures var r, e := Retained(edges[..i], ids), edges[i];
            var kept := Exists(e, ids) && Key(e) !in seen;
            && Retained(edges[..i + 1], ids) == (if kept then r + [e] else r)
            && (kept ==> Seen(seen + {Key(e)}, r + [e]))
  {
    assert edges[..i + 1][..i] == edges[..i];
  }

  lemma AddEdge(es: seq<Edge>, e: Edge)
    ensures forall u :: Targets(es + [e], u) == Targets(es, u) + (if e.0 == u then [e.1] else [])
    ensures forall v :: InDegree(es + [e], v, {}) == InDegree(es, v, {}) + (if e.1 == v then 1 else 0)
  {
    assert (es + [e])[..|es|] == es;
  }

  ghost predicate Adjacency(ids: seq<string>, adjacency: map<string, seq<string>>, degree: map<string, int>,
                            es: seq<Edge>)
  {
    && (forall u | u in ids :: u in adjacency && adjacency[u] == Targets(es, u))
    && (forall v | v in ids :: v in degree && degree[v] == InDegree(es, v, {}))
  }

  /** adjacency.get(source).push(target); degree.set(target, degree.get(target) + 1) */
  method Register(ids: seq<string>, adjacency0: map<string, seq<string>>, degree0: map<string, int>, e: Edge,
                  ghost es: seq<Edge>)
    returns (adjacency: map<string, seq<string>>, degree: map<string, int>)
    requires Adjacency(ids, adjacency0, degree0, es) && e.0 in ids && e.1 in ids
    ensures Adjacency(ids, adjacency, degree, es + [e])
  {
    hide Targets, InDegree;
    AddEdge(es, e);
    adjacency := adjacency0[e.0 := adjacency0[e.0] + [e.1]];
    degree := degree0[e.1 := degree0[e.1] + 1];
  }

  lemma NothingRead(ids: seq<string>, adjacency: map<string, seq<string>>, degree: map<string, int>, edges: seq<Edge>,
                    s: set<string>)
    requires forall id | id in ids :: id in adjacency && id in degree && adjacency[id] == [] && degree[id] == 0
    ensures Reports([], edges[..0], s) && Seen({}, Retained(edges[..0], s))
    ensures Adjacency(ids, adjacency, degree, Retained(edges[..0], s))
  {
  }

  /** The loop over the edges: adjacency lists, in-degrees, and the problems seen on the way. */
  method ReadEdges(ids: seq<string>, edges: seq<Edge>)
    returns (errors: seq<Problem>, adjacency: map<string, seq<string>>, degree: map<string, int>)
    ensures var s := set x | x in ids;
            Reports(errors, edges, s) && Adjacency(ids, adjacency, degree, Retained(edges, s))
  {
    hide Reports, Seen, Retained, Adjacency, Key;
    errors := [];
    adjacency := map id | id in ids :: [];
    degree := map id | id in ids :: 0;
    var seen: set<string> := {};
    ghost var s := set x | x in ids;
    NothingRead(ids, adjacency, degree, edges, s);
    var i := 0;
    while i < |edges|
      invariant 0 <= i <= |edges|
      invariant Reports(errors, edges[..i], s) && Seen(seen, Retained(edges[..i], s))
      invariant Adjacency(ids, adjacency, degree, Retained(edges[..i], s))
    {
      var e := edges[i];
      ghost var errors0, seen0 := errors, seen;
      RetainedSnoc(edges, i, s, seen);
      if e.0 !in ids || e.1 !in ids {
        errors := errors + [MissingStage];
      } else {
        if e.0 == e.1 {
          errors := errors + [SelfEdge];
        }
        var key := Key(e);
        if key in seen {
          errors := errors + [RepeatedEdge];
        } else {
          seen := seen + {key};
          adjacency, degree := Register(ids, adjacency, degree, e, Retained(edges[..i], s));
        }
      }
      ReportsSnoc(edges, i, s, seen0, errors0, errors);
      i := i + 1;
    }
    assert edges[..i] == edges;
  }

  function StageIds(nodes: seq<Stage>): (ids: seq<string>)
    ensures |ids| == |nodes| && forall i | 0 <= i < |nodes| :: ids[i] == nodes[i].id
  {
    if nodes == [] then [] else [nodes[0].id] + StageIds(nodes[1..])
  }

  lemma SameIds(g: Graph, all: seq<string>, ids: seq<string>)
    requires all == StageIds(g.nodes) && forall x :: x in ids <==> x in all
    ensures Ids(g) == set x | x in ids
    ensures DistinctIds(g) <==> forall i, j | 0 <= i < j < |all| :: all[i] != all[j]
  {
    hide StageIds;
    forall n | n in g.nodes ensures n.id in all {
      var i :| 0 <= i < |g.nodes| && g.nodes[i] == n;
      assert all[i] == n.id;
    }
    forall x | x in all ensures exists n | n in g.nodes :: n.id == x {
      var i :| 0 <= i < |all| && all[i] == x;
      assert g.nodes[i] in g.nodes;
    }
    assert forall i, j | 0 <= i < j < |all| :: all[i] == g.nodes[i].id && all[j] == g.nodes[j].id;
  }

  /** validate: each problem is reported exactly when the graph has it, and only once. */
  method Validate(g: Graph) returns (errors: seq<Problem>)
    ensures forall p :: p in errors <==> HasProblem(g, p)
    ensures forall i, j | 0 <= i < j < |errors| :: errors[i] != errors[j]
  {
    hide EdgeProblem, Retained, Targets, InDegree, Acyclic, DistinctIds;
    var all := StageIds(g.nodes);
    var ids := Dedup(all);
    SameIds(g, all, ids);
    var raw: seq<Problem> := [];
    if |g.nodes| == 0 {
      raw := raw + [NoStage];
    }
    if |ids| != |g.nodes| {
      raw := raw + [DuplicateId];
    }
    var edgeErrors, adjacency, degree := ReadEdges(ids, g.edges);
    raw := raw + edgeErrors;
    var visited := Kahn(ids, adjacency, degree, Retained(g.edges, Ids(g)));
    if visited != |ids| {
      raw := raw + [Loop];
    }
    NoOtherEdgeProblem(g.edges, Ids(g));
    errors := Dedup(raw);
  }

  lemma NoOtherEdgeProblem(es: seq<Edge>, ids: set<string>)
    ensures !EdgeProblem(es, ids, NoStage) && !EdgeProblem(es, ids, DuplicateId) && !EdgeProblem(es, ids, Loop)
  {
  }

  // ----------------------------------------------------------------------- verdict

  lemma {:induction false} RetainsAll(es: seq<Edge>, ids: set<string>)
    requires EndpointsIn(es, ids) && KeysDistinct(es)
    ensures Retained(es, ids) == es
  {
    hide Key;
    if es != [] {
      var init, e := es[..|es| - 1], es[|es| - 1];
      RetainsAll(init, ids);
      assert forall f | f in init :: Key(f) != Key(e);
      assert es == init + [e];
    }
  }

  /** validate accepts a graph exactly when it is a valid DAG and no two of its edges share a key. */
  lemma AcceptsIffValid(g: Graph)
    ensures (forall p :: !HasProblem(g, p)) <==> ValidDag(g) && KeysDistinct(g.edges)
  {
    hide Key, Retained, Acyclic, DistinctIds;
    var ids := Ids(g);
    if forall p :: !HasProblem(g, p) {
      assert !HasProblem(g, NoStage) && !HasProblem(g, DuplicateId) && !HasProblem(g, MissingStage);
      assert !HasProblem(g, RepeatedEdge) && !HasProblem(g, Loop);
      assert EndpointsIn(g.edges, ids) by {
        forall e | e in g.edges ensures Exists(e, ids) {
        }
      }
      forall i, j | 0 <= i < j < |g.edges| ensures Key(g.edges[i]) != Key(g.edges[j]) {
        assert Exists(g.edges[i], ids) && Exists(g.edges[j], ids);
      }
      RetainsAll(g.edges, ids);
      assert NoRepeats(g.edges);
    }
    if ValidDag(g) && KeysDistinct(g.edges) {
      RetainsAll(g.edges, ids);
      forall p ensures !HasProblem(g, p) {
        if p == SelfEdge {
          NoSelfEdges(g.edges);
        }
      }
    }
  }

  lemma NoSelfEdges(es: seq<Edge>)
    requires Acyclic(es)
    ensures forall e | e in es :: e.0 != e.1
  {
    forall e | e in es ensures e.0 != e.1 {
      var p := [e.0, e.1];
      assert IsWalk(es, p) by {
        assert e == (p[0], p[1]);
      }
      assert p[0] != p[|p| - 1];
    }
  }

  predicate Plain(id: string) { forall i | 0 <= i < |id| :: id[i] != '>' }

  /** When no source id contains '>', keys are distinct exactly when edges are. */
  lemma PlainKeys(es: seq<Edge>)
    requires forall e | e in es :: Plain(e.0)
    ensures KeysDistinct(es) <==> NoRepeats(es)
  {
    forall i, j | 0 <= i < j < |es| ensures Key(es[i]) == Key(es[j]) <==> es[i] == es[j] {
      PlainKeyInjective(es[i], es[j]);
    }
    if NoRepeats(es) {
      forall i, j | 0 <= i < j < |es| ensures Key(es[i]) != Key(es[j]) {
        assert es[i] != es[j];
      }
    }
  }

  lemma PlainKeyInjective(e: Edge, f: Edge)
    requires Plain(e.0) && Plain(f.0)
    ensures Key(e) == Key(f) <==> e == f
  {
    if Key(e) == Key(f) {
      var k := Key(e);
      assert forall i | 0 <= i < |e.0| :: k[i] == e.0[i];
      assert forall i | 0 <= i < |f.0| :: Key(f)[i] == f.0[i];
      IndexOfAt(k, '>', |e.0|);
      IndexOfAt(Key(f), '>', |f.0|);
      assert e.0 == k[..|e.0|] == f.0;
      assert e.1 == k[|e.0| + 1..] == f.1;
    }
  }

  /** Two independent edges with the same key make a valid DAG that validate refuses. */
  lemma ClashRefused(a: Stage, b: Stage, c: Stage, d: Stage)
    requires a.id != b.id && a.id != c.id && a.id != d.id && b.id != c.id && b.id != d.id && c.id != d.id
    requires Key((a.id, b.id)) == Key((c.id, d.id))
    ensures var g := Graph([a, b, c, d], [(a.id, b.id), (c.id, d.id)]); ValidDag(g) && HasProblem(g, RepeatedEdge)
  {
    hide Key, DistinctIds, Acyclic, Ids;
    var g := Graph([a, b, c, d], [(a.id, b.id), (c.id, d.id)]);
    var es := g.edges;
    FourStages(g, a, b, c, d);
    TwoEdgesAcyclic(a.id, b.id, c.id, d.id);
    assert Exists(es[0], Ids(g)) && Exists(es[1], Ids(g)) && Key(es[0]) == Key(es[1]);
  }

  lemma FourStages(g: Graph, a: Stage, b: Stage, c: Stage, d: Stage)
    requires a.id != b.id && a.id != c.id && a.id != d.id && b.id != c.id && b.id != d.id && c.id != d.id
    requires g.nodes == [a, b, c, d]
    ensures DistinctIds(g) && a.id in Ids(g) && b.id in Ids(g) && c.id in Ids(g) && d.id in Ids(g)
  {
    assert g.nodes[0] in g.nodes && g.nodes[1] in g.nodes && g.nodes[2] in g.nodes && g.nodes[3] in g.nodes;
  }

  lemma TwoEdgesAcyclic(a: string, b: string, c: string, d: string)
    requires a != b && a != d && c != b && c != d
    ensures Acyclic([(a, b), (c, d)])
  {
    var es := [(a, b), (c, d)];
    forall p | IsWalk(es, p) && 1 < |p| ensures p[0] != p[|p| - 1] {
      assert (p[0], p[1]) in es && (p[|p| - 2], p[|p| - 1]) in es;
    }
  }

  /** For instance "a" -> "b>c" and "a>b" -> "c": both have the key "a>b>c". */
  lemma ClashExample(a: Stage, b: Stage, c: Stage, d: Stage)
    requires a.id == "a" && b.id == "b>c" && c.id == "a>b" && d.id == "c"
    ensures var g := Graph([a, b, c, d], [(a.id, b.id), (c.id, d.id)]); ValidDag(g) && HasProblem(g, RepeatedEdge)
  {
    assert b.id[0] == 'b' && c.id[0] == 'a' && a.id[0] == 'a' && d.id[0] == 'c';
    assert Key((a.id, b.id)) == "a>b>c" == Key((c.id, d.id));
    ClashRefused(a, b, c, d);
  }
}
