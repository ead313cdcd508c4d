/** backend/internal/idempotency/idempotency.go: the cache against the history of its Sets. */
module Idempotency {
  import opened Basics
  import opened IdempotencyEviction

  // ------------------------------------------------------------------ an eviction run

  ghost function Minus(m: Cache, victims: seq<string>): Cache { m - (set k | k in victims) }

  ghost function Spent(m: Cache, victims: seq<string>): nat
    requires forall k | k in victims :: k in m
  {
    if victims == [] then 0
    else
      var k := victims[|victims| - 1];
      Spent(m, victims[..|victims| - 1]) + Size(k, m[k].entry)
  }

  ghost predicate CanPick(m: Cache, k: string) { exists order :: IsOrder(order, m.Keys) && Oldest(m, order) == k }

  /** The victims so far: each was picked while the count was above the target. */
  ghost predicate Evicts(m: Cache, bytes: int, target: int, victims: seq<string>) {
    victims == [] ||
    (var init, k := victims[..|victims| - 1], victims[|victims| - 1];
     && Evicts(m, bytes, target, init) && (forall j | j in init :: j in m)
     && k in Minus(m, init) && bytes - Spent(m, init) > target && CanPick(Minus(m, init), k))
  }

  ghost predicate Evicted(m: Cache, bytes: int, target: int, victims: seq<string>) {
    && Evicts(m, bytes, target, victims) && (forall k | k in victims :: k in m)
    && (bytes - Spent(m, victims) <= target || Minus(m, victims) == map[])
  }

  lemma MinusSnoc(m: Cache, init: seq<string>, k: string)
    ensures Minus(m, init + [k]) == Minus(m, init) - {k}
  {
    assert (set j | j in init + [k]) == (set j | j in init) + {k};
  }

  lemma NothingYet(m: Cache, bytes: int, target: int)
    ensures Evicts(m, bytes, target, []) && Minus(m, []) == m && Spent(m, []) == 0
  {
  }

  lemma EvictOne(m: Cache, bytes: int, target: int, victims: seq<string>, k: string)
    requires Evicts(m, bytes, target, victims) && (forall j | j in victims :: j in m)
    requires bytes - Spent(m, victims) > target && k in Minus(m, victims) && CanPick(Minus(m, victims), k)
    ensures Evicts(m, bytes, target, victims + [k]) && forall j | j in victims + [k] :: j in m
    ensures Minus(m, victims + [k]) == Minus(m, victims) - {k}
    ensures Spent(m, victims + [k]) == Spent(m, victims) + Size(k, m[k].entry) && Minus(m, victims)[k] == m[k]
  {
    hide CanPick;
    assert (victims + [k])[..|victims|] == victims;
    MinusSnoc(m, victims, k);
  }

  /** The count falls by exactly what leaves the map. */
  lemma {:induction false} SpentIsRemoved(m: Cache, bytes: int, target: int, victims: seq<string>)
    requires Evicts(m, bytes, target, victims) && forall k | k in victims :: k in m
    ensures Total(m) == Spent(m, victims) + Total(Minus(m, victims))
  {
    hide CanPick;
    if victims == [] {
      assert Minus(m, victims) == m;
    } else {
      var init, k := victims[..|victims| - 1], victims[|victims| - 1];
      assert victims == init + [k];
      SpentIsRemoved(m, bytes, target, init);
      MinusSnoc(m, init, k);
      TotalWithout(Minus(m, init), k);
    }
  }

  lemma PickIsEarliest(m: Cache, k: string)
    requires !EmptyKeyFirst(m) && m != map[] && CanPick(m, k)
    ensures Earliest(m, k)
  {
    VictimIsEarliestIff(m);
  }

  /** The empty key, if it is cached, expires last. */
  ghost predicate EmptyKeyLast(m: Cache) { "" in m ==> forall k | k in m :: m[k].expires <= m[""].expires }

  lemma LastIsNotFirst(m: Cache, victims: seq<string>)
    requires EmptyKeyLast(m)
    ensures !EmptyKeyFirst(Minus(m, victims))
  {
    var rest := Minus(m, victims);
    if EmptyKeyFirst(rest) {
      SomeOtherKey(rest);
    }
  }

  lemma SomeOtherKey(m: Cache)
    requires "" in m && |m| > 1
    ensures exists k :: k in m && k != ""
  {
    if forall k | k in m :: k == "" {
      OneKey(m);
    }
  }

  lemma OneKey(m: Cache)
    requires "" in m && forall k | k in m :: k == ""
    ensures |m| == 1
  {
    assert m.Keys == {""};
    assert |m| == |m.Keys|;
  }

  /** Evictions go in order of expiry, unless the empty key expires before another entry: no survivor expires before a
      victim. */
  lemma {:induction false} SurvivorsExpireLater(m: Cache, bytes: int, target: int, victims: seq<string>, v: string,
                                                k: string)
    requires EmptyKeyLast(m) && Evicts(m, bytes, target, victims)
    requires v in victims && v in m && k in Minus(m, victims)
    ensures m[v].expires <= m[k].expires
  {
    hide EmptyKeyLast, EmptyKeyFirst;
    var init, last := victims[..|victims| - 1], victims[|victims| - 1];
    assert victims == init + [last];
    MinusSnoc(m, init, last);
    if v == last {
      LastIsNotFirst(m, init);
      PickIsEarliest(Minus(m, init), last);
    } else {
      SurvivorsExpireLater(m, bytes, target, init, v, k);
    }
  }

  // -------------------------------------------------- replacing a key that is still cached

  /** The entries that expire after key. */
  ghost function Later(m: Cache, key: string): Cache
    requires key in m
  {
    map k | k in m && m[k].expires > m[key].expires :: m[k]
  }

  ghost predicate NoTies(m: Cache, key: string)
    requires key in m
  {
    forall k | k in m && k != key :: m[k].expires != m[key].expires
  }

  /** While key is not a victim, exactly the other survivors are counted, and everything later survives. */
  lemma {:induction false} BeforeKey(m: Cache, target: int, key: string, victims: seq<string>)
    requires "" !in m && key in m && NoTies(m, key)
    requires Evicts(m, Total(m - {key}), target, victims) && forall k | k in victims :: k in m
    ensures key !in victims ==> Total(m - {key}) - Spent(m, victims) == Total(Minus(m, victims) - {key})
    ensures key !in victims ==> forall k | k in Later(m, key) :: k in Minus(m, victims)
    ensures key in victims ==> Total(Later(m, key)) > target
    decreases |victims|
  {
    hide CanPick, Evicts, Minus, Later, NoTies;
    if victims == [] {
      NothingEvicted(m);
    } else {
      var init, last := victims[..|victims| - 1], victims[|victims| - 1];
      LastVictim(m, Total(m - {key}), target, victims);
      BeforeKey(m, target, key, init);
      if key !in init {
        assert !EmptyKeyFirst(Minus(m, init));
        PickIsEarliest(Minus(m, init), last);
        KeyStays(m, init, key);
        if last == key {
          LaterIsRest(m, init, key);
        } else {
          OtherVictim(m, init, key, last);
        }
      }
    }
  }

  lemma NothingEvicted(m: Cache)
    ensures Minus(m, []) == m && Spent(m, []) == 0 && forall key | key in m :: forall k | k in Later(m, key) :: k in m
  {
  }

  lemma LastVictim(m: Cache, bytes: int, target: int, victims: seq<string>)
    requires Evicts(m, bytes, target, victims) && victims != [] && forall k | k in victims :: k in m
    ensures var init, k := victims[..|victims| - 1], victims[|victims| - 1];
            && (forall j | j in init :: j in m) && victims == init + [k]
            && Evicts(m, bytes, target, init) && bytes - Spent(m, init) > target
            && k in Minus(m, init) && ("" !in m ==> "" !in Minus(m, init)) && CanPick(Minus(m, init), k)
            && Spent(m, victims) == Spent(m, init) + Size(k, m[k].entry)
            && Minus(m, victims) == Minus(m, init) - {k}
  {
    hide CanPick;
    MinusSnoc(m, victims[..|victims| - 1], victims[|victims| - 1]);
    assert victims == victims[..|victims| - 1] + [victims[|victims| - 1]];
  }

  /** A victim other than key expires before it, and was counted once. */
  lemma OtherVictim(m: Cache, init: seq<string>, key: string, last: string)
    requires key in m && last in m && last != key && NoTies(m, key)
    requires Earliest(Minus(m, init), last) && key in Minus(m, init)
    ensures last !in Later(m, key)
    ensures Total(Minus(m, init) - {key}) == Size(last, m[last].entry) + Total(Minus(m, init) - {last} - {key})
    ensures forall k | k in Later(m, key) && k in Minus(m, init) :: k in Minus(m, init) - {last}
  {
    TotalWithout(Minus(m, init) - {key}, last);
    assert Minus(m, init) - {key} - {last} == Minus(m, init) - {last} - {key};
  }

  lemma KeyStays(m: Cache, victims: seq<string>, key: string)
    requires key in m && key !in victims
    ensures key in Minus(m, victims)
  {
  }

  /** When key itself is the earliest left, exactly the later entries are left beside it. */
  lemma LaterIsRest(m: Cache, victims: seq<string>, key: string)
    requires key in m && NoTies(m, key) && Earliest(Minus(m, victims), key)
    requires forall k | k in Later(m, key) :: k in Minus(m, victims)
    ensures Minus(m, victims) - {key} == Later(m, key)
  {
  }

  /** Without ties the order of the map does not matter: the eviction reaches the replaced key exactly when the
      later entries alone exceed the target. */
  lemma KeyEvictedWithoutTies(m: Cache, target: int, key: string, victims: seq<string>)
    requires "" !in m && key in m && NoTies(m, key)
    requires Evicted(m, Total(m - {key}), target, victims)
    ensures key in victims <==> Total(Later(m, key)) > target
  {
    hide Evicts, CanPick, Later, NoTies;
    BeforeKey(m, target, key, victims);
    if key !in victims {
      KeyStays(m, victims, key);
      LaterIn(m, victims, key);
    }
  }

  lemma LaterIn(m: Cache, victims: seq<string>, key: string)
    requires key in m && forall k | k in Later(m, key) :: k in Minus(m, victims)
    ensures Total(Later(m, key)) <= Total(Minus(m, victims) - {key})
  {
    TotalSubset(Later(m, key), Minus(m, victims) - {key});
  }

  // -------------------------------------------------------------------------------- Set

  /** Everything Set does to the map and the byte count; victims are the keys it evicts. */
  ghost predicate SetStep(m: Cache, bytes: int, maxBytes: int, key: string, h: Held, victims: seq<string>, m': Cache,
                          bytes': int)
  {
    var size := Size(key, h.entry);
    var freed := bytes - (if key in m then Size(key, m[key].entry) else 0);
    && (forall k | k in victims :: k in m)
    && (if maxBytes > 0 && freed + size > maxBytes then Evicted(m, freed, maxBytes - size, victims) else victims == [])
    && m' == Minus(m, victims)[key := h]
    && bytes' == freed - Spent(m, victims) + size
  }

  lemma StepSpends(m: Cache, bytes: int, maxBytes: int, key: string, h: Held, victims: seq<string>, m': Cache,
                   bytes': int)
    requires SetStep(m, bytes, maxBytes, key, h, victims, m', bytes')
    ensures Total(m) == Spent(m, victims) + Total(Minus(m, victims))
    ensures Total(m') == Total(Minus(m, victims) - {key}) + Size(key, h.entry)
    ensures key in Minus(m, victims) <==> key in m && key !in victims
    ensures key in Minus(m, victims)
            ==> Total(Minus(m, victims)) == Size(key, m[key].entry) + Total(Minus(m, victims) - {key})
    ensures key !in Minus(m, victims) ==> Minus(m, victims) - {key} == Minus(m, victims)
  {
    hide Evicts, Total;
    if victims == [] {
      assert Minus(m, victims) == m;
    } else {
      SpentIsRemoved(m, bytes - (if key in m then Size(key, m[key].entry) else 0), maxBytes - Size(key, h.entry),
                     victims);
    }
    TotalPut(Minus(m, victims), key, h);
    if key in Minus(m, victims) {
      TotalWithout(Minus(m, victims), key);
    }
  }

  /** The bytes by which Set misses the total: those of a replaced entry that its eviction subtracts once more. */
  function SpentTwice(m: Cache, key: string, victims: seq<string>): nat {
    if key in m && key in victims then Size(key, m[key].entry) else 0
  }

  /** From any state, Set adds exactly these bytes to what the count already lacks. */
  lemma SetDrift(m: Cache, bytes: int, maxBytes: int, key: string, h: Held, victims: seq<string>, m': Cache,
                 bytes': int)
    requires SetStep(m, bytes, maxBytes, key, h, victims, m', bytes')
    ensures Total(m') - bytes' == Total(m) - bytes + SpentTwice(m, key, victims)
    ensures bytes <= Total(m) && maxBytes > 0 ==> bytes' <= Max(maxBytes, Size(key, h.entry))
  {
    hide Evicts, Total;
    StepSpends(m, bytes, maxBytes, key, h, victims, m', bytes');
    assert Minus(m, victims) == map[] ==> Total(Minus(m, victims)) == 0 by {
      EmptyTotal();
    }
  }

  lemma EmptyTotal()
    ensures var empty: Cache := map[]; Total(empty) == 0
  {
  }

  /** For a key that is not cached, Set keeps the count exact and bounded. */
  lemma NewKeyIsCounted(m: Cache, bytes: int, maxBytes: int, key: string, h: Held, victims: seq<string>,
                        m': Cache, bytes': int)
    requires key !in m && bytes == Total(m) && SetStep(m, bytes, maxBytes, key, h, victims, m', bytes')
    ensures bytes' == Total(m')
    ensures maxBytes > 0 ==> bytes' <= Max(maxBytes, Size(key, h.entry))
  {
    hide SetStep;
    SetDrift(m, bytes, maxBytes, key, h, victims, m', bytes');
  }

  /** For a key that is still cached, the count stays exact unless the eviction removes the replaced entry,
      whose size was already subtracted; it is then too small by that size. */
  lemma ReplacedKeyIsCountedIff(m: Cache, maxBytes: int, key: string, h: Held, victims: seq<string>,
                                m': Cache, bytes': int)
    requires key in m && SetStep(m, Total(m), maxBytes, key, h, victims, m', bytes')
    ensures bytes' == Total(m') - (if key in victims then Size(key, m[key].entry) else 0)
    ensures bytes' == Total(m') <==> key !in victims || Size(key, m[key].entry) == 0
  {
    hide SetStep;
    SetDrift(m, Total(m), maxBytes, key, h, victims, m', bytes');
  }

  /** For instance: a cap of 10, one entry of size 6 under "k", replaced by an entry of size 11. The eviction takes
      "k", the map then holds 11 bytes and the count says 5. */
  lemma DoubleSubtraction()
    ensures var m := map["k" := Held(Entry(200, "12345"), 100)];
            var second := Held(Entry(200, "1234567890"), 200);
            var m' := map["k" := second];
            Total(m) == 6 && SetStep(m, 6, 10, "k", second, ["k"], m', 5) && Total(m') == 11
  {
    var first, second := Held(Entry(200, "12345"), 100), Held(Entry(200, "1234567890"), 200);
    var empty: Cache := map[];
    assert |"k"| == 1 && |"12345"| == 5 && |"1234567890"| == 10 && "k" != "";
    OneEntry("k", first);
    OneEntry("k", second);
    var m := empty["k" := first];
    OnlyVictim(m, "k", 0, -1);
    assert Minus(m, ["k"]) == empty;
    assert m == map["k" := first] && empty["k" := second] == map["k" := second];
  }

  lemma OneEntry(k: string, h: Held)
    ensures Total(map[k := h]) == Size(k, h.entry)
  {
    var empty: Cache := map[];
    TotalPut(empty, k, h);
    assert empty[k := h] == map[k := h];
  }

  lemma PickBy(m: Cache, order: seq<string>)
    requires IsOrder(order, m.Keys)
    ensures CanPick(m, Oldest(m, order))
  {
  }

  /** With one entry cached and the count above the target, the eviction takes it and stops. */
  lemma OnlyVictim(m: Cache, k: string, bytes: int, target: int)
    requires k in m && m.Keys == {k} && bytes > target
    ensures Evicted(m, bytes, target, [k]) && Spent(m, [k]) == Size(k, m[k].entry)
  {
    var order := [k];
    assert order[..|order| - 1] == [];
    assert forall j :: j in order <==> j == k;
    assert Oldest(m, order) == k;
    PickBy(m, order);
    NothingYet(m, bytes, target);
    EvictOne(m, bytes, target, [], k);
    assert [] + [k] == [k];
    assert Minus(m, [k]) == map[];
  }
}
