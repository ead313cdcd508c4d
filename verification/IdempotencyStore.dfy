/** backend/internal/idempotency/idempotency.go: the store object, and whole runs of Sets and sweeps. */
module IdempotencyStore {
  import opened Basics
  import opened Wrappers
  import opened IdempotencyEviction
  import opened Idempotency

  /** One Set: the key and what it stores. */
  datatype Stored = Stored(key: string, held: Held)

  /** The most recent Set of key. */
  function LastSet(history: seq<Stored>, key: string): Option<Held> {
    if history == [] then None
    else if history[|history| - 1].key == key then Some(history[|history| - 1].held)
    else LastSet(history[..|history| - 1], key)
  }

  class Memory {
    const maxBytes: int
    var entries: Cache
    var bytes: int
    /** Every Set so far. */
    ghost var history: seq<Stored>

    /** Each cached entry is the one its key was last set to. */
    ghost predicate Valid()
      reads this
    {
      forall k | k in entries :: LastSet(history, k) == Some(entries[k])
    }

    constructor (maxBytes: int)
      ensures Valid() && entries == map[] && bytes == 0 && history == [] && this.maxBytes == maxBytes
    {
      this.maxBytes := maxBytes;
      entries, bytes, history := map[], 0, [];
    }

    /** A hit replays the most recent Set of the key, before its expiry. */
    method Get(key: string, now: int) returns (r: Option<Entry>)
      requires Valid()
      ensures r == if key in entries && now < entries[key].expires then Some(entries[key].entry) else None
      ensures r.Some? ==> LastSet(history, key).Some? && LastSet(history, key).value.entry == r.value
                          && now < LastSet(history, key).value.expires
    {
      if key in entries && now < entries[key].expires {
        return Some(entries[key].entry);
      }
      return None;
    }

    method Set(key: string, e: Entry, ttl: int, now: int) returns (ghost victims: seq<string>)
      requires Valid()
      modifies this
      ensures Valid() && history == old(history) + [Stored(key, Held(e, now + ttl))]
      ensures SetStep(old(entries), old(bytes), maxBytes, key, Held(e, now + ttl), victims, entries, bytes)
    {
      hide Evicts, CanPick;
      ghost var m := entries;
      var newSize := |key| + |e.body|;
      if key in entries {
        bytes := bytes - (|key| + |entries[key].entry.body|);
      }
      victims := [];
      assert Minus(m, []) == m;
      if maxBytes > 0 && bytes + newSize > maxBytes {
        victims := EvictUntil(maxBytes - newSize);
      }
      entries := entries[key := Held(e, now + ttl)];
      bytes := bytes + newSize;
      history := history + [Stored(key, Held(e, now + ttl))];
      assert history[..|history| - 1] == old(history);
    }

    /** evictUntilLocked */
    method EvictUntil(target: int) returns (ghost victims: seq<string>)
      modifies this`entries, this`bytes
      ensures Evicted(old(entries), old(bytes), target, victims)
      ensures entries == Minus(old(entries), victims) && bytes == old(bytes) - Spent(old(entries), victims)
    {
      hide Evicts, CanPick, Minus;
      victims := [];
      ghost var m, bytes0 := entries, bytes;
      NothingYet(m, bytes, target);
      while bytes > target && |entries| > 0
        invariant Evicts(m, bytes0, target, victims) && forall k | k in victims :: k in m
        invariant entries == Minus(m, victims) && bytes == bytes0 - Spent(m, victims)
        decreases |entries|
      {
        var oldestKey := FindOldest();
        EvictOne(m, bytes0, target, victims, oldestKey);
        bytes := bytes - (|oldestKey| + |entries[oldestKey].entry.body|);
        entries := entries - {oldestKey};
        victims := victims + [oldestKey];
      }
    }

    /** The scan for the entry that expires first, in map order. */
    method FindOldest() returns (oldestKey: string)
      requires entries != map[]
      ensures oldestKey in entries && CanPick(entries, oldestKey)
    {
      oldestKey := "";
      var oldestExp := 0;
      var rest := entries.Keys;
      ghost var order: seq<string> := [];
      while rest != {}
        invariant rest <= entries.Keys && (forall k :: k in order <==> k in entries.Keys - rest) && Distinct(order)
        invariant oldestKey == Oldest(entries, order)
        invariant oldestKey in order ==> oldestExp == entries[oldestKey].expires
        invariant order != [] ==> oldestKey in order
        decreases rest
      {
        var k :| k in rest;
        assert (order + [k])[..|order|] == order;
        assert oldestKey != "" ==> oldestKey in order by {
          if order == [] {
            assert oldestKey == "";
          }
        }
        if oldestKey == "" || entries[k].expires < oldestExp {
          oldestKey, oldestExp := k, entries[k].expires;
        }
        rest := rest - {k};
        order := order + [k];
      }
      assert IsOrder(order, entries.Keys);
      ghost var some :| some in entries;
      assert some in order;
    }

    /** One sweep of the background collector. */
    method Sweep(now: int)
      requires Valid()
      modifies this`entries, this`bytes
      ensures Valid()
      ensures entries == map k | k in old(entries) && !(now > old(entries)[k].expires) :: old(entries)[k]
      ensures old(bytes) - bytes == Total(old(entries)) - Total(entries)
    {
      hide LastSet, Total;
      var rest := entries.Keys;
      while rest != {}
        invariant rest <= entries.Keys
        invariant entries ==
                  map k | k in old(entries) && (k in rest || !(now > old(entries)[k].expires)) :: old(entries)[k]
        invariant old(bytes) - bytes == Total(old(entries)) - Total(entries)
        decreases rest
      {
        var k :| k in rest;
        rest := rest - {k};
        if now > entries[k].expires {
          TotalWithout(entries, k);
          bytes := bytes - (|k| + |entries[k].entry.body|);
          entries := entries - {k};
        }
      }
    }
  }

  // ------------------------------------------------------------------------ whole runs

  datatype Event = SetEvent(key: string, held: Held, victims: seq<string>) | SweepEvent(now: int)

  datatype State = State(entries: Cache, bytes: int)

  ghost predicate Step(maxBytes: int, s: State, e: Event, s': State) {
    match e
    case SetEvent(key, held, victims) => SetStep(s.entries, s.bytes, maxBytes, key, held, victims, s'.entries, s'.bytes)
    case SweepEvent(now) =>
      && s'.entries == (map k | k in s.entries && !(now > s.entries[k].expires) :: s.entries[k])
      && s.bytes - s'.bytes == Total(s.entries) - Total(s'.entries)
  }

  /** The bytes a step subtracts twice: those of a replaced entry that the Set also evicts. */
  function DoublySpent(s: State, e: Event): nat { if e.SetEvent? then SpentTwice(s.entries, e.key, e.victims) else 0 }

  /** The size of the newest entry, or 0 before the first Set. */
  function NewestSize(events: seq<Event>, i: nat): int
    requires i <= |events|
  {
    if i == 0 then 0
    else if events[i - 1].SetEvent? then Size(events[i - 1].key, events[i - 1].held.entry)
    else NewestSize(events, i - 1)
  }

  lemma StepDrift(maxBytes: int, s: State, e: Event, s': State)
    requires Step(maxBytes, s, e, s')
    ensures Total(s'.entries) - s'.bytes == Total(s.entries) - s.bytes + DoublySpent(s, e)
    ensures s.bytes <= Total(s.entries) && e.SetEvent? && maxBytes > 0
            ==> s'.bytes <= Max(maxBytes, Size(e.key, e.held.entry))
    ensures e.SweepEvent? ==> s'.bytes <= s.bytes
  {
    match e
    case SetEvent(key, held, victims) =>
      SetDrift(s.entries, s.bytes, maxBytes, key, held, victims, s'.entries, s'.bytes);
    case SweepEvent(now) =>
      TotalSubset(s'.entries, s.entries);
  }

  ghost predicate IsRun(maxBytes: int, states: seq<State>, events: seq<Event>) {
    && |states| == |events| + 1 && states[0] == State(map[], 0)
    && forall k | 0 <= k < |events| :: Step(maxBytes, states[k], events[k], states[k + 1])
  }

  ghost function Drift(states: seq<State>, events: seq<Event>, i: nat): nat
    requires i <= |events| <= |states|
  {
    if i == 0 then 0 else Drift(states, events, i - 1) + DoublySpent(states[i - 1], events[i - 1])
  }

  /** In any run of Sets and sweeps the count falls short of the total size by exactly the bytes subtracted twice
      so far. The count itself stays within the cap or the size of the newest entry, so the map can exceed those by
      that many bytes. */
  lemma {:induction false} CountIsShortBy(maxBytes: int, states: seq<State>, events: seq<Event>, i: nat)
    requires IsRun(maxBytes, states, events) && i <= |events|
    ensures Total(states[i].entries) == states[i].bytes + Drift(states, events, i)
    ensures maxBytes > 0 ==> states[i].bytes <= Max(maxBytes, NewestSize(events, i))
    ensures maxBytes > 0 ==> Total(states[i].entries) <= Max(maxBytes, NewestSize(events, i)) + Drift(states, events, i)
  {
    hide Step, DoublySpent;
    if i > 0 {
      CountIsShortBy(maxBytes, states, events, i - 1);
      StepDrift(maxBytes, states[i - 1], events[i - 1], states[i]);
    }
  }

  /** So the count is exact after i steps if and only if none of them subtracted anything twice: once lost, it never
      comes right again. */
  lemma CountedIff(maxBytes: int, states: seq<State>, events: seq<Event>, i: nat)
    requires IsRun(maxBytes, states, events) && i <= |events|
    ensures states[i].bytes == Total(states[i].entries)
            <==> forall k | 0 <= k < i :: DoublySpent(states[k], events[k]) == 0
  {
    hide Step, DoublySpent;
    CountIsShortBy(maxBytes, states, events, i);
    NoDriftIff(states, events, i);
  }

  lemma {:induction false} NoDriftIff(states: seq<State>, events: seq<Event>, i: nat)
    requires i <= |events| <= |states|
    ensures Drift(states, events, i) == 0 <==> forall k | 0 <= k < i :: DoublySpent(states[k], events[k]) == 0
  {
    hide DoublySpent;
    if i > 0 {
      NoDriftIff(states, events, i - 1);
    }
  }
}
