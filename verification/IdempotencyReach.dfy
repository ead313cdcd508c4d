/** backend/internal/idempotency/idempotency.go:94-124: when an eviction can reach the entry being replaced, over every
    order in which the map may be walked. */
module IdempotencyReach {
  import opened Basics
  import opened IdempotencyEviction
  import opened Idempotency

  /** The entries beside key that are still cached when an eviction first can take key. Normally those that expire no
      earlier. An empty key that expires first confuses the scan: from then on it can find any other key. */
  ghost function Outlasting(m: Cache, key: string): Cache
    requires key in m
  {
    map k | k in m && k != key && Outlasts(m, key, k) :: m[k]
  }

  predicate Outlasts(m: Cache, key: string, k: string)
    requires key in m && k in m
  {
    if key == "" then m[k].expires > m[""].expires
    else if "" in m && m[""].expires < m[key].expires then k == "" || m[k].expires > m[""].expires
    else m[k].expires >= m[key].expires
  }

  ghost predicate Part(a: Cache, b: Cache) { forall k | k in a :: k in b && b[k] == a[k] }

  lemma MinusIsPart(m: Cache, victims: seq<string>)
    ensures Part(Minus(m, victims), m)
  {
  }

  // ----------------------------------------------------------------- what a scan can find

  lemma OldestSnoc(m: Cache, order: seq<string>, k: string)
    requires (forall j | j in order :: j in m) && k in m
    ensures forall j | j in order + [k] :: j in m
    ensures var best := Oldest(m, order);
            Oldest(m, order + [k]) == if best == "" || (best in m && m[k].expires < m[best].expires) then k else best
  {
    assert (order + [k])[..|order|] == order;
  }

  lemma {:induction false} FirstStays(m: Cache, k: string, rest: seq<string>)
    requires Earliest(m, k) && k != "" && forall j | j in rest :: j in m
    ensures (forall j | j in [k] + rest :: j in m) && Oldest(m, [k] + rest) == k
  {
    if rest == [] {
      assert [k] + rest == [k] && [k][..0] == [];
    } else {
      var init, last := rest[..|rest| - 1], rest[|rest| - 1];
      FirstStays(m, k, init);
      assert [k] + rest == ([k] + init) + [last];
      OldestSnoc(m, [k] + init, last);
    }
  }

  lemma DistinctJoin(a: seq<string>, b: seq<string>)
    requires Distinct(a) && Distinct(b) && forall k | k in a :: k !in b
    ensures Distinct(a + b)
  {
    assert forall i | 0 <= i < |a| :: a[i] in a;
    assert forall i | 0 <= i < |b| :: b[i] in b;
  }

  lemma DistinctPair(a: string, b: string)
    ensures Distinct([a]) && (a != b ==> Distinct([a, b]))
  {
  }

  lemma EarliestCanBePicked(m: Cache, k: string)
    requires Earliest(m, k) && k != ""
    ensures CanPick(m, k)
  {
    var rest := SomeOrder(m.Keys - {k});
    FirstStays(m, k, rest);
    DistinctPair(k, k);
    DistinctJoin([k], rest);
    assert IsOrder([k] + rest, m.Keys);
    PickBy(m, [k] + rest);
  }

  /** Scanning the empty key last finds it, if it expires strictly first. */
  lemma EmptyKeyLastScanned(m: Cache, rest: seq<string>)
    requires "" in m && Distinct(rest) && forall j | j in rest :: j in m && m[""].expires < m[j].expires
    ensures Oldest(m, rest + [""]) == ""
  {
    if rest != [] {
      ScanFinds(m, rest);
    }
    OldestSnoc(m, rest, "");
  }

  lemma EmptyKeyCanBePicked(m: Cache)
    requires "" in m && forall k | k in m && k != "" :: m[""].expires < m[k].expires
    ensures CanPick(m, "")
  {
    var rest := SomeOrder(m.Keys - {""});
    EmptyKeyLastScanned(m, rest);
    DistinctPair("", "");
    DistinctJoin(rest, [""]);
    assert IsOrder(rest + [""], m.Keys);
    PickBy(m, rest + [""]);
  }

  /** Scanning the empty key just before k finds k. */
  lemma AnyKeyCanBePicked(m: Cache, k: string)
    requires EmptyKeyFirst(m) && k in m && k != ""
    ensures CanPick(m, k)
  {
    var rest := SomeOrder(m.Keys - {"", k});
    EmptyKeyLastScanned(m, rest);
    OldestSnoc(m, rest + [""], k);
    assert rest + [""] + [k] == rest + ["", k];
    DistinctPair("", k);
    DistinctJoin(rest, ["", k]);
    assert IsOrder(rest + ["", k], m.Keys);
    PickBy(m, rest + ["", k]);
  }

  /** When key is picked, only entries that outlast it are left beside it. */
  lemma PickLeavesOutlasting(m: Cache, left: Cache, key: string)
    requires key in m && Part(left, m) && key in left && CanPick(left, key)
    ensures Part(left - {key}, Outlasting(m, key))
  {
    var order :| IsOrder(order, left.Keys) && Oldest(left, order) == key;
    assert key in order;
    ScanFinds(left, order);
    if key == "" {
      assert !Reliable(left, order);
    } else if !EmptyKeyFirst(left) {
      PickIsEarliest(left, key);
    }
  }

  /** Conversely, key can be picked once only these are left. */
  lemma CanPickAmongOutlasting(m: Cache, left: Cache, key: string)
    requires key in m && Part(left, m) && key in left && left - {key} == Outlasting(m, key)
    ensures CanPick(left, key)
  {
    assert forall k | k in left && k != key :: k in left - {key};
    if key == "" {
      EmptyKeyCanBePicked(left);
    } else if "" in m && m[""].expires < m[key].expires {
      assert "" in Outlasting(m, key) && "" in left;
      assert EmptyKeyFirst(left) by {
        assert {"", key} <= left.Keys && |{"", key}| == 2;
        SizeOfPart({"", key}, left.Keys);
      }
      AnyKeyCanBePicked(left, key);
    } else {
      EarliestCanBePicked(left, key);
    }
  }

  lemma SizeOfPart(a: set<string>, b: set<string>)
    requires a <= b
    ensures |a| <= |b|
  {
    assert b == a + (b - a);
  }

  // --------------------------------------------------------------- evictions step by step

  /** The count before every pick is the total beside key, as long as key is left. */
  lemma CountBesideKey(m: Cache, target: int, key: string, victims: seq<string>)
    requires key in m && Evicts(m, Total(m - {key}), target, victims) && key !in victims
    requires forall k | k in victims :: k in m
    ensures key in Minus(m, victims)
    ensures Total(m - {key}) - Spent(m, victims) == Total(Minus(m, victims) - {key})
  {
    hide Evicts;
    SpentIsRemoved(m, Total(m - {key}), target, victims);
    TotalWithout(m, key);
    KeyStays(m, victims, key);
    TotalWithout(Minus(m, victims), key);
  }

  lemma {:induction false} NotReached(m: Cache, target: int, key: string, victims: seq<string>)
    requires key in m && Evicts(m, Total(m - {key}), target, victims) && forall k | k in victims :: k in m
    requires Total(Outlasting(m, key)) <= target
    ensures key !in victims
  {
    hide Evicts, CanPick, Outlasting, Minus;
    if victims != [] {
      var init, last := victims[..|victims| - 1], victims[|victims| - 1];
      LastVictim(m, Total(m - {key}), target, victims);
      NotReached(m, target, key, init);
      if last == key {
        CountBesideKey(m, target, key, init);
        MinusIsPart(m, init);
        PickLeavesOutlasting(m, Minus(m, init), key);
        TotalSubset(Minus(m, init) - {key}, Outlasting(m, key));
      }
    }
  }

  lemma {:induction false} EarliestAmong(m: Cache, ids: set<string>) returns (k: string)
    requires ids != {} && ids <= m.Keys
    ensures k in ids && forall j | j in ids :: m[k].expires <= m[j].expires
  {
    var i :| i in ids;
    k := i;
    if ids != {i} {
      var j := EarliestAmong(m, ids - {i});
      if m[j].expires < m[i].expires {
        k := j;
      }
    }
  }

  lemma NothingOutside(m: Cache, left: Cache, key: string)
    requires key in m && Part(left, m) && key in left && Part(Outlasting(m, key), left)
    requires left.Keys - {key} - Outlasting(m, key).Keys == {}
    ensures left - {key} == Outlasting(m, key)
  {
    assert forall j | j in left && j != key :: j !in left.Keys - {key} - Outlasting(m, key).Keys;
  }

  /** Of the entries that do not outlast key, the first to expire is the first of all. */
  lemma OutsiderCanBePicked(m: Cache, left: Cache, key: string) returns (k: string)
    requires key in m && Part(left, m) && key in left && Part(Outlasting(m, key), left)
             && left - {key} != Outlasting(m, key)
    ensures k in left && k != key && k !in Outlasting(m, key) && CanPick(left, k)
  {
    var outside := left.Keys - {key} - Outlasting(m, key).Keys;
    if outside == {} {
      NothingOutside(m, left, key);
    }
    k := EarliestAmong(left, outside);
    assert k != "";
    assert Earliest(left, k) by {
      forall j | j in left ensures left[k].expires <= left[j].expires {
        if j !in outside {
          assert j == key || j in Outlasting(m, key);
        }
      }
    }
    EarliestCanBePicked(left, k);
  }

  /** Whatever has been evicted short of key and what outlasts it, some way on takes key next to the end. */
  lemma {:induction false} DownToKey(m: Cache, target: int, key: string, victims: seq<string>)
    returns (more: seq<string>)
    requires key in m && Evicts(m, Total(m - {key}), target, victims) && forall k | k in victims :: k in m
    requires key !in victims && Part(Outlasting(m, key), Minus(m, victims)) && Total(Outlasting(m, key)) > target
    ensures Evicts(m, Total(m - {key}), target, more) && (forall k | k in more :: k in m)
    ensures key in more && forall k | k in Outlasting(m, key) :: k in Minus(m, more)
    decreases |Minus(m, victims)|
  {
    hide Evicts, CanPick, Outlasting, Minus, Spent;
    var left := Minus(m, victims);
    MinusIsPart(m, victims);
    CountBesideKey(m, target, key, victims);
    OutlastingLeft(m, left, key);
    TotalSubset(Outlasting(m, key), left - {key});
    if left - {key} == Outlasting(m, key) {
      CanPickAmongOutlasting(m, left, key);
      EvictOne(m, Total(m - {key}), target, victims, key);
      more := victims + [key];
    } else {
      var k := OutsiderCanBePicked(m, left, key);
      EvictOne(m, Total(m - {key}), target, victims, k);
      SmallerMap(left, k);
      more := DownToKey(m, target, key, victims + [k]);
    }
  }

  lemma SmallerMap(m: Cache, k: string)
    requires k in m
    ensures |m - {k}| < |m|
  {
    assert (m - {k}).Keys == m.Keys - {k};
    assert |m - {k}| == |(m - {k}).Keys|;
  }

  lemma OutlastingLeft(m: Cache, left: Cache, key: string)
    requires key in m && Part(Outlasting(m, key), left)
    ensures Part(Outlasting(m, key), left - {key})
  {
  }

  /** Every eviction can be carried on to its end. */
  lemma {:induction false} Finish(m: Cache, bytes: int, target: int, victims: seq<string>) returns (all: seq<string>)
    requires Evicts(m, bytes, target, victims) && forall k | k in victims :: k in m
    ensures Evicted(m, bytes, target, all) && forall k | k in victims :: k in all
    decreases |Minus(m, victims)|
  {
    hide Evicts, CanPick, Minus;
    var left := Minus(m, victims);
    all := victims;
    if bytes - Spent(m, victims) > target && left != map[] {
      var k := SomePick(left);
      EvictOne(m, bytes, target, victims, k);
      SmallerMap(left, k);
      all := Finish(m, bytes, target, victims + [k]);
    }
  }

  lemma SomePick(m: Cache) returns (k: string)
    requires m != map[]
    ensures k in m && CanPick(m, k)
  {
    var order := SomeOrder(m.Keys);
    var i :| i in m;
    assert i in order;
    ScanFinds(m, order);
    PickBy(m, order);
    k := Oldest(m, order);
  }

  // ------------------------------------------------------------------ the exact conditions

  /** Some order of the map lets the eviction take the entry being replaced if and only if the entries that outlast it
      exceed the target together. */
  lemma KeyEvictedIff(m: Cache, target: int, key: string)
    requires key in m
    ensures (exists victims :: Evicted(m, Total(m - {key}), target, victims) && key in victims)
            <==> Total(Outlasting(m, key)) > target
  {
    if Total(Outlasting(m, key)) > target {
      var victims := KeyReached(m, target, key);
      assert Evicted(m, Total(m - {key}), target, victims) && key in victims;
    } else {
      forall victims | Evicted(m, Total(m - {key}), target, victims) ensures key !in victims {
        hide Outlasting, Evicts;
        NotReached(m, target, key, victims);
      }
    }
  }

  lemma KeyReached(m: Cache, target: int, key: string) returns (victims: seq<string>)
    requires key in m && Total(Outlasting(m, key)) > target
    ensures Evicted(m, Total(m - {key}), target, victims) && key in victims
  {
    hide Evicts, Total;
    NothingYet(m, Total(m - {key}), target);
    var down := DownToKey(m, target, key, []);
    victims := Finish(m, Total(m - {key}), target, down);
  }

  /** The count after a Set is exact in every order. */
  ghost predicate CountedInEveryOrder(m: Cache, maxBytes: int, key: string, h: Held) {
    forall victims, m', bytes' | SetStep(m, Total(m), maxBytes, key, h, victims, m', bytes') :: bytes' == Total(m')
  }

  /** Replacing a cached key keeps the byte count exact in every order of the map if and only if there is no cap, or the
      entries that outlast the replaced one fit the cap together with the new one, or there was nothing to count. */
  lemma CountedInEveryOrderIff(m: Cache, maxBytes: int, key: string, h: Held)
    requires key in m
    ensures CountedInEveryOrder(m, maxBytes, key, h) <==>
            || maxBytes <= 0
            || Total(Outlasting(m, key)) + Size(key, h.entry) <= maxBytes
            || Size(key, m[key].entry) == 0
  {
    hide Evicts, Outlasting, SetStep, Total, Size;
    if maxBytes <= 0 || Total(Outlasting(m, key)) + Size(key, h.entry) <= maxBytes || Size(key, m[key].entry) == 0 {
      forall victims, m', bytes' | SetStep(m, Total(m), maxBytes, key, h, victims, m', bytes')
        ensures bytes' == Total(m')
      {
        CountedWhenItFits(m, maxBytes, key, h, victims, m', bytes');
      }
    } else {
      var victims, m', bytes' := MiscountedSet(m, maxBytes, key, h);
    }
  }

  lemma WhatWasEvicted(m: Cache, maxBytes: int, key: string, h: Held, victims: seq<string>, m': Cache, bytes': int)
    requires key in m && SetStep(m, Total(m), maxBytes, key, h, victims, m', bytes') && victims != []
    ensures maxBytes > 0 && forall k | k in victims :: k in m
    ensures Evicts(m, Total(m - {key}), maxBytes - Size(key, h.entry), victims)
  {
    TotalWithout(m, key);
    hide Evicts, Minus, Spent, Total;
  }

  lemma CountedWhenItFits(m: Cache, maxBytes: int, key: string, h: Held, victims: seq<string>, m': Cache, bytes': int)
    requires key in m && SetStep(m, Total(m), maxBytes, key, h, victims, m', bytes')
    requires maxBytes <= 0 || Total(Outlasting(m, key)) + Size(key, h.entry) <= maxBytes || Size(key, m[key].entry) == 0
    ensures bytes' == Total(m')
  {
    hide SetStep, Evicts, Outlasting, Total, Size;
    ReplacedKeyIsCountedIff(m, maxBytes, key, h, victims, m', bytes');
    if victims != [] && Size(key, m[key].entry) != 0 {
      WhatWasEvicted(m, maxBytes, key, h, victims, m', bytes');
      NotReached(m, maxBytes - Size(key, h.entry), key, victims);
    }
  }

  lemma MiscountedSet(m: Cache, maxBytes: int, key: string, h: Held)
    returns (victims: seq<string>, m': Cache, bytes': int)
    requires key in m && maxBytes > 0 && Size(key, m[key].entry) > 0
    requires Total(Outlasting(m, key)) + Size(key, h.entry) > maxBytes
    ensures SetStep(m, Total(m), maxBytes, key, h, victims, m', bytes') && bytes' != Total(m')
  {
    victims := KeyReached(m, maxBytes - Size(key, h.entry), key);
    OutlastingIsPart(m, key);
    TotalSubset(Outlasting(m, key), m - {key});
    TotalWithout(m, key);
    hide Evicts, Outlasting, Minus, Total;
    m' := Minus(m, victims)[key := h];
    bytes' := Total(m - {key}) - Spent(m, victims) + Size(key, h.entry);
    ReplacedKeyIsCountedIff(m, maxBytes, key, h, victims, m', bytes');
  }

  lemma OutlastingIsPart(m: Cache, key: string)
    requires key in m
    ensures forall k | k in Outlasting(m, key) :: k in m - {key} && (m - {key})[k] == Outlasting(m, key)[k]
  {
  }

  /** No eviction, in any order and to any target, takes an entry while one that expires earlier survives. */
  ghost predicate InOrderOfExpiry(m: Cache) {
    forall bytes, target, victims, v, k
      | Evicts(m, bytes, target, victims) && v in victims && v in m && k in Minus(m, victims) ::
      m[v].expires <= m[k].expires
  }

  /** Evictions respect the order of expiry if and only if the empty key is not cached before a later entry. */
  lemma InOrderOfExpiryIff(m: Cache)
    ensures InOrderOfExpiry(m) <==> EmptyKeyLast(m)
  {
    if EmptyKeyLast(m) {
      forall bytes, target, victims, v, k
        | Evicts(m, bytes, target, victims) && v in victims && v in m && k in Minus(m, victims)
        ensures m[v].expires <= m[k].expires
      {
        SurvivorsExpireLater(m, bytes, target, victims, v, k);
      }
    } else {
      var key :| key in m && m[key].expires > m[""].expires;
      assert "" in Outlasting(m, key);
      hide Evicts, Outlasting;
      NothingYet(m, Total(m - {key}), -1);
      var victims := DownToKey(m, -1, key, []);
      assert key in victims && "" in Minus(m, victims);
    }
  }
}
