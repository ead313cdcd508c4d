/** backend/internal/server/ratelimit.go:74-134: bucket lookups and the idle sweep, interleaved lock by lock. */
module RateLimiter {
  import opened Wrappers

  /** Names the goroutine of a request. */
  datatype CallId = CallId(n: nat)

  /** Where a call of limiterFor is. */
  datatype Pc =
    | Start           // before RLock
    | Reading         // holds the read lock
    | Hit             // found its bucket, before lastMu.Lock
    | HitLocked       // holds lastMu
    | Miss            // before mu.Lock
    | Writing         // holds the write lock, before the second look
    | Inserted        // holds the write lock, bucket registered, before lastMu.Lock
    | InsertedLocked  // holds both locks
    | Stamped         // holds the write lock, bucket stamped
    | Done

  datatype Call = Call(key: string, pc: Pc)

  /** Where the sweep is: waiting for a tick, scanning under lastMu, between the locks, deleting under mu. */
  datatype Sweep =
    | Idle
    | Scan(cutoff: int, rest: set<string>, stale: set<string>)
    | Between(stale: set<string>)
    | Delete(stale: set<string>)

  datatype Actor = Caller(id: CallId) | Gc

  /** readers and writer are the two sides of mu; last is lastMu. */
  datatype State = State(buckets: set<string>, lastSeen: map<string, int>, readers: set<CallId>, writer: Option<Actor>,
                         last: Option<Actor>, calls: map<CallId, Call>, sweep: Sweep)

  /** Ten minutes, in nanoseconds. */
  const INTERVAL: int := 600_000_000_000

  const INITIAL := State({}, map[], {}, None, None, map[], Idle)

  // -------------------------------------------------------------------------------- steps

  function At(s: State, t: CallId, pc: Pc): State
    requires t in s.calls
  {
    s.(calls := s.calls[t := Call(s.calls[t].key, pc)])
  }

  /** One step of call t: taking a lock, or the work done until the next one is needed. */
  ghost predicate CallStep(s: State, t: CallId, now: int, s': State)
    requires t in s.calls
  {
    var k := s.calls[t].key;
    match s.calls[t].pc
    case Start => s.writer.None? && s' == At(s, t, Reading).(readers := s.readers + {t})
    case Reading => s' == At(s, t, if k in s.buckets then Hit else Miss).(readers := s.readers - {t})
    case Hit => s.last.None? && s' == At(s, t, HitLocked).(last := Some(Caller(t)))
    case HitLocked => s' == At(s, t, Pc.Done).(lastSeen := s.lastSeen[k := now], last := None)
    case Miss => s.writer.None? && s.readers == {} && s' == At(s, t, Writing).(writer := Some(Caller(t)))
    case Writing =>
      s' == if k in s.buckets then At(s, t, Pc.Done).(writer := None)
            else At(s, t, Inserted).(buckets := s.buckets + {k})
    case Inserted => s.last.None? && s' == At(s, t, InsertedLocked).(last := Some(Caller(t)))
    case InsertedLocked => s' == At(s, t, Stamped).(lastSeen := s.lastSeen[k := now], last := None)
    case Stamped => s' == At(s, t, Pc.Done).(writer := None)
    case Done => false
  }

  /** One step of the sweep. */
  ghost predicate SweepStep(s: State, now: int, s': State) {
    match s.sweep
    case Idle => s.last.None? && s' == s.(sweep := Scan(now - INTERVAL, s.lastSeen.Keys, {}), last := Some(Gc))
    case Scan(cutoff, rest, stale) =>
      if rest == {} then s' == s.(sweep := if stale == {} then Idle else Between(stale), last := None)
      else exists k :: ScanOne(s, k, s')
    case Between(stale) =>
      s.writer.None? && s.readers == {} && s' == s.(sweep := Delete(stale), writer := Some(Gc))
    case Delete(stale) =>
      if stale == {} then s' == s.(sweep := Idle, writer := None)
      else exists k :: k in stale && s' == s.(buckets := s.buckets - {k}, sweep := Delete(stale - {k}))
  }

  /** The body of the scanning loop for the key k. */
  ghost predicate ScanOne(s: State, k: string, s': State) {
    && s.sweep.Scan? && k in s.sweep.rest
    && var rest := s.sweep.rest - {k};
    s' == if k in s.lastSeen && s.lastSeen[k] < s.sweep.cutoff
          then s.(lastSeen := s.lastSeen - {k}, sweep := Scan(s.sweep.cutoff, rest, s.sweep.stale + {k}))
          else s.(sweep := Scan(s.sweep.cutoff, rest, s.sweep.stale))
  }

  datatype Event = Arrive(id: CallId, key: string) | Step(actor: Actor, now: int)

  ghost predicate Next(s: State, e: Event, s': State) {
    match e
    case Arrive(t, key) => t !in s.calls && s' == s.(calls := s.calls[t := Call(key, Start)])
    case Step(actor, now) =>
      match actor
      case Caller(t) => t in s.calls && CallStep(s, t, now, s')
      case Gc => SweepStep(s, now, s')
  }

  // ---------------------------------------------------------------------------- invariant

  predicate HoldsWrite(pc: Pc) { pc == Writing || pc == Inserted || pc == InsertedLocked || pc == Stamped }

  predicate HoldsLast(pc: Pc) { pc == HitLocked || pc == InsertedLocked }

  ghost predicate ReadersOk(s: State) {
    forall t :: t in s.readers <==> t in s.calls && s.calls[t].pc == Reading
  }

  ghost predicate WriterOk(s: State) {
    && (forall t :: s.writer == Some(Caller(t)) <==> t in s.calls && HoldsWrite(s.calls[t].pc))
    && (s.writer == Some(Gc) <==> s.sweep.Delete?)
    && (s.writer.Some? ==> s.readers == {})
  }

  ghost predicate LastOk(s: State) {
    && (forall t :: s.last == Some(Caller(t)) <==> t in s.calls && HoldsLast(s.calls[t].pc))
    && (s.last == Some(Gc) <==> s.sweep.Scan?)
  }

  /** Who holds which lock. */
  ghost predicate Locks(s: State) { ReadersOk(s) && WriterOk(s) && LastOk(s) }

  function Stale(s: Sweep): set<string> { if s.Idle? then {} else s.stale }

  /** k is being inserted by the call that holds the write lock. */
  ghost predicate BeingInserted(s: State, k: string) {
    exists t :: t in s.calls && s.calls[t].key == k && (s.calls[t].pc == Inserted || s.calls[t].pc == InsertedLocked)
  }

  /** Every registered bucket is stamped, on the sweep's list, or being inserted: it can always be swept later. */
  ghost predicate Sweepable(s: State) {
    forall k | k in s.buckets :: k in s.lastSeen || k in Stale(s.sweep) || BeingInserted(s, k)
  }

  lemma InitialIsOk()
    ensures Locks(INITIAL) && Sweepable(INITIAL)
  {
  }

  lemma CallKeepsReaders(s: State, t: CallId, now: int, s': State)
    requires ReadersOk(s) && t in s.calls && CallStep(s, t, now, s')
    ensures ReadersOk(s')
  {
  }

  lemma CallKeepsWriter(s: State, t: CallId, now: int, s': State)
    requires WriterOk(s) && t in s.calls && CallStep(s, t, now, s')
    ensures WriterOk(s')
  {
    assert HoldsWrite(s.calls[t].pc) ==> s.writer == Some(Caller(t));
  }

  lemma CallKeepsLast(s: State, t: CallId, now: int, s': State)
    requires LastOk(s) && t in s.calls && CallStep(s, t, now, s')
    ensures LastOk(s')
  {
    assert HoldsLast(s.calls[t].pc) ==> s.last == Some(Caller(t));
  }

  lemma CallKeepsLocks(s: State, t: CallId, now: int, s': State)
    requires Locks(s) && t in s.calls && CallStep(s, t, now, s')
    ensures Locks(s')
  {
    hide ReadersOk, WriterOk, LastOk, CallStep;
    CallKeepsReaders(s, t, now, s');
    CallKeepsWriter(s, t, now, s');
    CallKeepsLast(s, t, now, s');
  }

  lemma SweepKeepsLocks(s: State, now: int, s': State)
    requires Locks(s) && SweepStep(s, now, s')
    ensures Locks(s')
  {
  }

  lemma CallKeepsSweepable(s: State, t: CallId, now: int, s': State)
    requires Locks(s) && Sweepable(s) && t in s.calls && CallStep(s, t, now, s')
    ensures Sweepable(s')
  {
    forall k | k in s'.buckets ensures k in s'.lastSeen || k in Stale(s'.sweep) || BeingInserted(s', k) {
      if k !in s.buckets {
        assert s'.calls[t].key == k && s'.calls[t].pc == Inserted;
      } else if u :| u in s.calls && s.calls[u].key == k
                     && (s.calls[u].pc == Inserted || s.calls[u].pc == InsertedLocked) {
        if u != t {
          assert s'.calls[u] == s.calls[u];
        } else if s.calls[t].pc == Inserted {
          assert s'.calls[t].pc == InsertedLocked && s'.calls[t].key == k;
        }
      }
    }
  }

  lemma SweepKeepsSweepable(s: State, now: int, s': State)
    requires Locks(s) && Sweepable(s) && SweepStep(s, now, s')
    ensures Sweepable(s')
  {
    assert s'.calls == s.calls;
    assert forall k :: BeingInserted(s', k) == BeingInserted(s, k);
  }

  lemma ArrivalKeepsInvariant(s: State, t: CallId, key: string)
    requires Locks(s) && Sweepable(s) && t !in s.calls
    ensures var s' := s.(calls := s.calls[t := Call(key, Start)]); Locks(s') && Sweepable(s')
  {
    var s' := s.(calls := s.calls[t := Call(key, Start)]);
    forall k | BeingInserted(s, k) ensures BeingInserted(s', k) {
      var u :| u in s.calls && s.calls[u].key == k && (s.calls[u].pc == Inserted || s.calls[u].pc == InsertedLocked);
      assert s'.calls[u] == s.calls[u];
    }
    hide BeingInserted;
  }

  lemma NextKeepsInvariant(s: State, e: Event, s': State)
    requires Locks(s) && Sweepable(s) && Next(s, e, s')
    ensures Locks(s') && Sweepable(s')
  {
    hide CallStep, SweepStep, Locks, Sweepable;
    match e
    case Arrive(t, key) =>
      ArrivalKeepsInvariant(s, t, key);
    case Step(actor, now) =>
      match actor {
        case Caller(t) =>
          CallKeepsLocks(s, t, now, s');
          CallKeepsSweepable(s, t, now, s');
        case Gc =>
          SweepKeepsLocks(s, now, s');
          SweepKeepsSweepable(s, now, s');
      }
  }

  ghost predicate Run(states: seq<State>, events: seq<Event>) {
    && |states| == |events| + 1 && states[0] == INITIAL
    && forall i | 0 <= i < |events| :: Next(states[i], events[i], states[i + 1])
  }

  /** In every interleaving of any number of calls with the sweep. */
  lemma {:induction false} AlwaysSweepable(states: seq<State>, events: seq<Event>, i: nat)
    requires Run(states, events) && i <= |events|
    ensures Locks(states[i]) && Sweepable(states[i])
  {
    hide Locks, Sweepable, Next;
    if i == 0 {
      InitialIsOk();
    } else {
      AlwaysSweepable(states, events, i - 1);
      NextKeepsInvariant(states[i - 1], events[i - 1], states[i]);
    }
  }

  /** When a sweep that had something to delete gives up the write lock, every registered bucket is stamped. */
  lemma SweepLeavesNoneBehind(states: seq<State>, events: seq<Event>, i: nat)
    requires Run(states, events) && i < |events|
    requires states[i].sweep.Delete? && states[i + 1].sweep.Idle?
    ensures states[i + 1].buckets <= states[i + 1].lastSeen.Keys
  {
    AlwaysSweepable(states, events, i);
    AlwaysSweepable(states, events, i + 1);
    var s, s' := states[i], states[i + 1];
    assert Next(s, events[i], s');
    assert s.writer == Some(Gc) && s'.calls == s.calls;
    forall k ensures !BeingInserted(s', k) {
      if BeingInserted(s, k) {
        InserterHoldsWrite(s, k);
      }
    }
  }

  lemma InserterHoldsWrite(s: State, k: string)
    requires Locks(s) && BeingInserted(s, k)
    ensures s.writer.Some? && s.writer != Some(Gc)
  {
    var t :| t in s.calls && s.calls[t].key == k && (s.calls[t].pc == Inserted || s.calls[t].pc == InsertedLocked);
    assert s.writer == Some(Caller(t));
  }

  /** The sweep puts a key on its list only when the key's last stamp is older than the cutoff. */
  lemma OnlyIdleKeysAreCollected(s: State, now: int, s': State, k: string)
    requires SweepStep(s, now, s') && k in Stale(s'.sweep) && k !in Stale(s.sweep)
    ensures s.sweep.Scan? && k in s.lastSeen && s.lastSeen[k] < s.sweep.cutoff
  {
  }

  // ------------------------------------------------------- stamps between the sweep's two locks

  /** The step in which a call stamps the key k. */
  ghost predicate Stamps(s: State, e: Event, k: string) {
    && e.Step? && e.actor.Caller? && e.actor.id in s.calls && s.calls[e.actor.id].key == k
    && (s.calls[e.actor.id].pc == HitLocked || s.calls[e.actor.id].pc == InsertedLocked)
  }

  /** k is on the list of the sweep and will not be looked at again. */
  ghost predicate Listed(s: State, k: string) { k in Stale(s.sweep) && (s.sweep.Scan? ==> k !in s.sweep.rest) }

  lemma CollectionUnstamps(s: State, e: Event, s': State, k: string)
    requires Next(s, e, s') && k !in Stale(s.sweep) && k in Stale(s'.sweep)
    ensures Listed(s', k) && k !in s'.lastSeen
  {
  }

  lemma ListedStep(s: State, e: Event, s': State, k: string)
    requires Next(s, e, s') && Listed(s, k) && k in Stale(s'.sweep)
    ensures Listed(s', k)
    ensures k in s'.lastSeen <==> k in s.lastSeen || Stamps(s, e, k)
  {
  }

  /** A key collected at step j and still listed before step i is stamped again if and only if some call stamped it in
      between. So the sweep deletes the bucket of a key just used exactly when a call stamps it while it is listed. */
  lemma {:induction false} StampedWhileListedIff(states: seq<State>, events: seq<Event>, j: nat, i: nat, k: string)
    requires Run(states, events) && j < i <= |events|
    requires k !in Stale(states[j].sweep) && forall m | j < m <= i :: k in Stale(states[m].sweep)
    ensures Listed(states[i], k)
    ensures k in states[i].lastSeen <==> exists m | j < m < i :: Stamps(states[m], events[m], k)
    decreases i
  {
    hide Next, Stamps, Listed;
    if i == j + 1 {
      CollectionUnstamps(states[j], events[j], states[i], k);
    } else {
      StampedWhileListedIff(states, events, j, i - 1, k);
      ListedStep(states[i - 1], events[i - 1], states[i], k);
    }
  }

  ghost predicate Reachable(s: State) {
    exists states, events :: Run(states, events) && states[|events|] == s
  }

  lemma ReachNext(s: State, e: Event, s': State)
    requires Reachable(s) && Next(s, e, s')
    ensures Reachable(s')
  {
    hide Next;
    var states, events :| Run(states, events) && states[|events|] == s;
    assert Run(states + [s'], events + [e]);
    assert (states + [s'])[|events + [e]|] == s';
  }

  /** The bucket of k is registered and stamped, and nobody is under way. */
  lemma ReachStamped(k: string, t: CallId) returns (s: State)
    ensures Reachable(s) && s == State({k}, map[k := 0], {}, None, None, map[t := Call(k, Pc.Done)], Idle)
  {
    hide Run;
    InitialReached();
    var s1 := INITIAL.(calls := map[t := Call(k, Start)]);
    assert s1.calls == INITIAL.calls[t := Call(k, Start)];
    ReachNext(INITIAL, Arrive(t, k), s1);
    var s2 := At(s1, t, Reading).(readers := {t});
    assert s1.readers + {t} == {t};
    ReachNext(s1, Step(Caller(t), 0), s2);
    var s3 := At(s2, t, Miss).(readers := {});
    assert s2.readers - {t} == {};
    ReachNext(s2, Step(Caller(t), 0), s3);
    var s4 := At(s3, t, Writing).(writer := Some(Caller(t)));
    ReachNext(s3, Step(Caller(t), 0), s4);
    var s5 := At(s4, t, Inserted).(buckets := {k});
    assert s4.buckets + {k} == {k};
    ReachNext(s4, Step(Caller(t), 0), s5);
    var s6 := At(s5, t, InsertedLocked).(last := Some(Caller(t)));
    ReachNext(s5, Step(Caller(t), 0), s6);
    var s7 := At(s6, t, Stamped).(lastSeen := map[k := 0], last := None);
    assert s6.lastSeen[k := 0] == map[k := 0];
    ReachNext(s6, Step(Caller(t), 0), s7);
    s := At(s7, t, Pc.Done).(writer := None);
    ReachNext(s7, Step(Caller(t), 0), s);
    assert s.calls == map[t := Call(k, Pc.Done)];
  }

  lemma InitialReached()
    ensures Reachable(INITIAL)
  {
    var states, events: seq<Event> := [INITIAL], [];
    assert Run(states, events);
    assert states[|events|] == INITIAL;
  }

  /** The bucket of k is on the list, no longer stamped, and the sweep is between its two locks. */
  lemma ReachListed(k: string, t: CallId, now: int) returns (s: State)
    requires 0 < now - INTERVAL
    ensures Reachable(s) && s == State({k}, map[], {}, None, None, map[t := Call(k, Pc.Done)], Between({k}))
  {
    hide Run;
    var s0 := ReachStamped(k, t);
    var s1 := s0.(sweep := Scan(now - INTERVAL, {k}, {}), last := Some(Gc));
    assert s0.lastSeen.Keys == {k};
    ReachNext(s0, Step(Gc, now), s1);
    var s2 := s1.(lastSeen := map[], sweep := Scan(now - INTERVAL, {}, {k}));
    assert s1.lastSeen - {k} == map[] && {k} - {k} == {} && {} + {k} == {k};
    assert ScanOne(s1, k, s2);
    ReachNext(s1, Step(Gc, now), s2);
    s := s2.(sweep := Between({k}), last := None);
    ReachNext(s2, Step(Gc, now), s);
  }

  /** It can happen: the sweep deletes the bucket of a key that a call has stamped at the very time of the sweep. */
  lemma FreshBucketDeleted(k: string, t: CallId, u: CallId, now: int)
    requires t != u && 0 < now - INTERVAL
    ensures exists s, s' :: Reachable(s) && Next(s, Step(Gc, now), s') && k in s.buckets && k in s.lastSeen
                            && s.lastSeen[k] == now && k !in s'.buckets
  {
    hide Run, Reachable;
    var s0 := ReachListed(k, t, now);
    var s1 := s0.(calls := s0.calls[u := Call(k, Start)]);
    ReachNext(s0, Arrive(u, k), s1);
    var s2 := At(s1, u, Reading).(readers := {u});
    assert s1.readers + {u} == {u};
    ReachNext(s1, Step(Caller(u), now), s2);
    var s3 := At(s2, u, Hit).(readers := {});
    assert s2.readers - {u} == {};
    ReachNext(s2, Step(Caller(u), now), s3);
    var s4 := At(s3, u, HitLocked).(last := Some(Caller(u)));
    ReachNext(s3, Step(Caller(u), now), s4);
    var s5 := At(s4, u, Pc.Done).(lastSeen := map[k := now], last := None);
    assert s4.lastSeen[k := now] == map[k := now];
    ReachNext(s4, Step(Caller(u), now), s5);
    var s6 := s5.(sweep := Delete({k}), writer := Some(Gc));
    ReachNext(s5, Step(Gc, now), s6);
    var s7 := s6.(buckets := s6.buckets - {k}, sweep := Delete({k} - {k}));
    assert SweepStep(s6, now, s7);
  }

  // ------------------------------------------------------------------------------ progress

  ghost predicate CanCall(s: State, t: CallId, now: int)
    requires t in s.calls
  {
    exists s' :: CallStep(s, t, now, s')
  }

  ghost predicate CanSweep(s: State, now: int) { exists s' :: SweepStep(s, now, s') }

  /** What a call waits for, if anything. */
  predicate CallReady(s: State, t: CallId)
    requires t in s.calls
  {
    match s.calls[t].pc
    case Start => s.writer.None?
    case Miss => s.writer.None? && s.readers == {}
    case Hit => s.last.None?
    case Inserted => s.last.None?
    case Done => false
    case _ => true
  }

  lemma ReadyCallsCanStep(s: State, t: CallId, now: int)
    requires t in s.calls && CallReady(s, t)
    ensures CanCall(s, t, now)
  {
    var k := s.calls[t].key;
    var s' :=
      match s.calls[t].pc
      case Start => At(s, t, Reading).(readers := s.readers + {t})
      case Reading => At(s, t, if k in s.buckets then Hit else Miss).(readers := s.readers - {t})
      case Hit => At(s, t, HitLocked).(last := Some(Caller(t)))
      case HitLocked => At(s, t, Pc.Done).(lastSeen := s.lastSeen[k := now], last := None)
      case Miss => At(s, t, Writing).(writer := Some(Caller(t)))
      case Writing =>
        if k in s.buckets then At(s, t, Pc.Done).(writer := None) else At(s, t, Inserted).(buckets := s.buckets + {k})
      case Inserted => At(s, t, InsertedLocked).(last := Some(Caller(t)))
      case InsertedLocked => At(s, t, Stamped).(lastSeen := s.lastSeen[k := now], last := None)
      case Stamped => At(s, t, Pc.Done).(writer := None)
      case Done => s;
    assert CallStep(s, t, now, s');
  }

  lemma ScanAndDeleteCanStep(s: State, now: int)
    requires s.sweep.Scan? || s.sweep.Delete?
    ensures CanSweep(s, now)
  {
    match s.sweep
    case Scan(cutoff, rest, stale) =>
      if rest == {} {
        assert SweepStep(s, now, s.(sweep := if stale == {} then Idle else Between(stale), last := None));
      } else {
        var k :| k in rest;
        var s' := if k in s.lastSeen && s.lastSeen[k] < cutoff
                  then s.(lastSeen := s.lastSeen - {k}, sweep := Scan(cutoff, rest - {k}, stale + {k}))
                  else s.(sweep := Scan(cutoff, rest - {k}, stale));
        assert ScanOne(s, k, s');
        assert SweepStep(s, now, s');
      }
    case Delete(stale) =>
      if stale == {} {
        assert SweepStep(s, now, s.(sweep := Idle, writer := None));
      } else {
        var k :| k in stale;
        assert SweepStep(s, now, s.(buckets := s.buckets - {k}, sweep := Delete(stale - {k})));
      }
  }

  /** Someone who is not waiting for a new request or a tick can always move: the slow path takes lastMu
      while it holds mu, but nobody takes them the other way round. */
  ghost predicate SomeoneCanStep(s: State, now: int) {
    CanSweep(s, now) || exists t :: t in s.calls && CanCall(s, t, now)
  }

  lemma LastHolderMoves(s: State, now: int)
    requires Locks(s) && s.last.Some?
    ensures SomeoneCanStep(s, now)
  {
    if s.last == Some(Gc) {
      ScanAndDeleteCanStep(s, now);
    } else {
      var t := s.last.value.id;
      assert s.last == Some(Caller(t));
      ReadyCallsCanStep(s, t, now);
    }
  }

  lemma MuHolderMoves(s: State, now: int)
    requires Locks(s) && (s.writer.Some? || s.readers != {})
    ensures SomeoneCanStep(s, now)
  {
    if s.last.Some? {
      LastHolderMoves(s, now);
    } else if s.writer == Some(Gc) {
      ScanAndDeleteCanStep(s, now);
    } else if s.writer.Some? {
      var t := s.writer.value.id;
      assert s.writer == Some(Caller(t));
      ReadyCallsCanStep(s, t, now);
    } else {
      var t :| t in s.readers;
      ReadyCallsCanStep(s, t, now);
    }
  }

  lemma NoDeadlock(s: State, now: int)
    requires Locks(s)
    requires s.sweep != Idle || exists t :: t in s.calls && s.calls[t].pc != Pc.Done
    ensures SomeoneCanStep(s, now)
  {
    hide Locks, CanCall, CanSweep;
    if s.last.Some? {
      LastHolderMoves(s, now);
    } else if s.writer.Some? || s.readers != {} {
      MuHolderMoves(s, now);
    } else if s.sweep != Idle {
      FreeLocksSweep(s, now);
    } else {
      var t :| t in s.calls && s.calls[t].pc != Pc.Done;
      ReadyCallsCanStep(s, t, now);
    }
  }

  lemma FreeLocksSweep(s: State, now: int)
    requires s.writer.None? && s.readers == {} && s.sweep != Idle
    ensures CanSweep(s, now)
  {
    if s.sweep.Between? {
      assert SweepStep(s, now, s.(sweep := Delete(s.sweep.stale), writer := Some(Gc)));
    } else {
      ScanAndDeleteCanStep(s, now);
    }
  }
}
