/** backend/internal/idempotency/idempotency.go:94-128: which entries an eviction removes, and whether the byte count
    survives. */
module IdempotencyEviction {
  import opened Basics

  /** Strings are sequences of bytes. */
  datatype Entry = Entry(status: int, body: string)

  datatype Held = Held(entry: Entry, expires: int)

  type Cache = map<string, Held>

  function Size(key: string, e: Entry): nat { |key| + |e.body| }

  ghost function Total(m: Cache): nat {
    if m == map[] then 0
    else
      var k :| k in m;
      Size(k, m[k].entry) + Total(m - {k})
  }

  lemma {:induction false} TotalWithout(m: Cache, k: string)
    requires k in m
    ensures Total(m) == Size(k, m[k].entry) + Total(m - {k})
    decreases |m|
  {
    var j :| j in m && Total(m) == Size(j, m[j].entry) + Total(m - {j});
    if j != k {
      TotalWithout(m - {j}, k);
      TotalWithout(m - {k}, j);
      assert m - {j} - {k} == m - {k} - {j};
    }
  }

  lemma TotalPut(m: Cache, k: string, h: Held)
    ensures Total(m[k := h]) == Total(m - {k}) + Size(k, h.entry)
    ensures k !in m ==> m - {k} == m
  {
    TotalWithout(m[k := h], k);
    assert m[k := h] - {k} == m - {k};
  }

  lemma {:induction false} TotalSubset(a: Cache, b: Cache)
    requires forall k | k in a :: k in b && b[k] == a[k]
    ensures Total(a) <= Total(b)
    decreases |a|
  {
    if a != map[] {
      var k :| k in a;
      TotalWithout(a, k);
      TotalWithout(b, k);
      TotalSubset(a - {k}, b - {k});
    }
  }

  // ------------------------------------------------------------ choosing one victim

  /** The scan over the map in some order; the empty string stands for "none yet". */
  function Oldest(m: Cache, order: seq<string>): string
    requires forall k | k in order :: k in m
  {
    if order == [] then ""
    else
      var best, k := Oldest(m, order[..|order| - 1]), order[|order| - 1];
      if best == "" || (best in m && m[k].expires < m[best].expires) then k else best
  }

  ghost predicate IsOrder(order: seq<string>, keys: set<string>) {
    (forall k :: k in order <==> k in keys) && Distinct(order)
  }

  predicate Earliest(m: Cache, k: string) { k in m && forall j | j in m :: m[k].expires <= m[j].expires }

  /** The empty key is cached with others and expires strictly before them all. */
  predicate EmptyKeyFirst(m: Cache) {
    "" in m && |m| > 1 && forall k | k in m && k != "" :: m[""].expires < m[k].expires
  }

  /** Some key of the prefix other than "" is no later than "", or "" is not in it. */
  ghost predicate Reliable(m: Cache, order: seq<string>)
    requires forall k | k in order :: k in m
  {
    "" !in order || exists k | k in order :: k != "" && m[k].expires <= m[""].expires
  }

  /** What the scan of a non-empty prefix has found. */
  ghost predicate Found(m: Cache, order: seq<string>, best: string)
    requires forall k | k in order :: k in m
  {
    best in order && (Reliable(m, order) ==> best != "" && forall k | k in order :: m[best].expires <= m[k].expires)
  }

  lemma FoundSnoc(m: Cache, init: seq<string>, last: string, best: string)
    requires (forall k | k in init + [last] :: k in m) && (forall k | k in init :: k in m) && last !in init
    requires Found(m, init, best)
    ensures Found(m, init + [last], if best == "" || m[last].expires < m[best].expires then last else best)
  {
    var order := init + [last];
    assert forall k :: k in order <==> k in init || k == last;
    if Reliable(m, order) {
      if last == "" {
        assert Reliable(m, init);
      } else if !Reliable(m, init) {
        assert "" in init && m[last].expires <= m[""].expires;
        assert forall k | k in init :: m[last].expires <= m[k].expires;
      }
    }
  }

  lemma FoundFirst(m: Cache, k: string)
    requires k in m
    ensures Found(m, [k], k)
  {
    assert forall j :: j in [k] <==> j == k;
  }

  lemma DistinctInit(order: seq<string>)
    requires Distinct(order) && order != []
    ensures var n := |order| - 1; Distinct(order[..n]) && order[n] !in order[..n] && order == order[..n] + [order[n]]
  {
  }

  lemma {:induction false} ScanFinds(m: Cache, order: seq<string>)
    requires (forall k | k in order :: k in m) && order != [] && Distinct(order)
    ensures Found(m, order, Oldest(m, order))
  {
    hide Found, Distinct;
    var init, last := order[..|order| - 1], order[|order| - 1];
    DistinctInit(order);
    if init == [] {
      FoundFirst(m, last);
    } else {
      ScanFinds(m, init);
      FoundIsIn(m, init, Oldest(m, init));
      FoundSnoc(m, init, last, Oldest(m, init));
    }
  }

  lemma FoundIsIn(m: Cache, order: seq<string>, best: string)
    requires (forall k | k in order :: k in m) && Found(m, order, best)
    ensures best in m
  {
  }

  lemma {:induction false} NeverEmptyAgain(m: Cache, order: seq<string>)
    requires (forall k | k in order :: k in m) && 1 < |order| && order[0] == ""
    requires forall i | 1 <= i < |order| :: order[i] != ""
    ensures Oldest(m, order) != ""
  {
    var init := order[..|order| - 1];
    if |order| > 2 {
      NeverEmptyAgain(m, init);
    } else {
      assert Oldest(m, init) == "" by {
        assert init == [""];
        assert init[..0] == [];
      }
    }
  }

  lemma {:induction false} SomeOrder(keys: set<string>) returns (order: seq<string>)
    ensures IsOrder(order, keys) && |order| == |keys|
  {
    order := [];
    if keys != {} {
      var k :| k in keys;
      order := SomeOrder(keys - {k});
      order := order + [k];
    }
  }

  /** The scan always finds an earliest expiry, whatever the map order, exactly unless the empty key
      is cached with others and expires first. */
  lemma VictimIsEarliestIff(m: Cache)
    requires m != map[]
    ensures (forall order | IsOrder(order, m.Keys) :: Earliest(m, Oldest(m, order))) <==> !EmptyKeyFirst(m)
  {
    if EmptyKeyFirst(m) {
      var rest := SomeOrder(m.Keys - {""});
      var order := [""] + rest;
      assert |m.Keys - {""}| == |m| - 1;
      assert forall i | 0 <= i < |rest| :: rest[i] in rest;
      assert IsOrder(order, m.Keys);
      NeverEmptyAgain(m, order);
      assert !Earliest(m, Oldest(m, order));
    } else {
      forall order | IsOrder(order, m.Keys) ensures Earliest(m, Oldest(m, order)) {
        NotFirst(m, order);
        ScanFinds(m, order);
      }
    }
  }

  lemma OnlyOne(order: seq<string>)
    requires order != [] && Distinct(order) && forall k | k in order :: k == ""
    ensures order == [""]
  {
    SomeOther(order, 1);
    assert order[0] in order;
  }

  lemma SomeOther(order: seq<string>, i: nat)
    requires Distinct(order) && 0 < i
    ensures i < |order| ==> order[0] != order[i] && order[0] in order && order[i] in order
  {
  }

  lemma NotFirst(m: Cache, order: seq<string>)
    requires m != map[] && !EmptyKeyFirst(m) && IsOrder(order, m.Keys)
    ensures order != [] && (Reliable(m, order) || order == [""])
  {
    var k :| k in m;
    assert k in order;
    if "" in m && |m| == 1 {
      assert m.Keys == {""} by {
        assert |m.Keys - {""}| == 0;
        forall j | j in m ensures j == "" {
          assert j !in m.Keys - {""};
        }
      }
      assert forall i | 0 <= i < |order| :: order[i] in order;
      assert order == [""] by { OnlyOne(order); }
    }
  }
}
