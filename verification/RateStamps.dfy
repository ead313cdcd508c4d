/** backend/internal/server/ratelimit.go: what the stamps of the buckets mean over whole runs. */
module RateStamps {
  import opened RateLimiter

  /** Event m is the last one before step i that stamped k. */
  ghost predicate LastStamp(states: seq<State>, events: seq<Event>, k: string, m: int, i: int)
    requires |states| == |events| + 1 && i <= |events|
  {
    0 <= m < i && Stamps(states[m], events[m], k) && forall n | m < n < i :: !Stamps(states[n], events[n], k)
  }

  lemma StampStep(s: State, e: Event, s': State, k: string)
    requires Next(s, e, s')
    ensures Stamps(s, e, k) ==> k in s'.lastSeen && s'.lastSeen[k] == e.now
    ensures !Stamps(s, e, k) && k in s'.lastSeen ==> k in s.lastSeen && s'.lastSeen[k] == s.lastSeen[k]
  {
  }

  /** A stamp is the instant of the last call that stamped its key. */
  lemma {:induction false} StampIsLast(states: seq<State>, events: seq<Event>, k: string, i: nat) returns (m: int)
    requires Run(states, events) && i <= |events| && k in states[i].lastSeen
    ensures LastStamp(states, events, k, m, i) && events[m].now == states[i].lastSeen[k]
  {
    hide Next, Stamps;
    assert i > 0;
    StampStep(states[i - 1], events[i - 1], states[i], k);
    if Stamps(states[i - 1], events[i - 1], k) {
      m := i - 1;
      assert events[m].Step? by { StampIsStep(states[m], events[m], k); }
    } else {
      m := StampIsLast(states, events, k, i - 1);
    }
  }

  lemma StampIsStep(s: State, e: Event, k: string)
    requires Stamps(s, e, k)
    ensures e.Step?
  {
  }

  /** The sweep that is scanning began ten minutes after its cutoff. */
  lemma {:induction false} CutoffIs(states: seq<State>, events: seq<Event>, i: nat) returns (m: int)
    requires Run(states, events) && i <= |events| && states[i].sweep.Scan?
    ensures 0 <= m < i && events[m].Step? && states[i].sweep.cutoff == events[m].now - 600_000_000_000
    ensures states[m].sweep.Idle? && forall n | m < n <= i :: states[n].sweep.Scan?
  {
    assert Next(states[i - 1], events[i - 1], states[i]);
    if states[i - 1].sweep.Scan? {
      m := CutoffIs(states, events, i - 1);
    } else {
      m := i - 1;
    }
  }

  /** A key comes on the stale list only when no call has stamped it in the ten minutes before the sweep began, nor
      since. */
  lemma StaleMeansIdle(states: seq<State>, events: seq<Event>, k: string, i: nat) returns (start: int, last: int)
    requires Run(states, events) && i < |events| && k in Stale(states[i + 1].sweep) && k !in Stale(states[i].sweep)
    ensures 0 <= start < i && states[start].sweep.Idle? && events[start].Step?
    ensures LastStamp(states, events, k, last, i) && events[last].Step?
    ensures events[last].now + 600_000_000_000 < events[start].now
  {
    assert Next(states[i], events[i], states[i + 1]);
    Collects(states[i], events[i], states[i + 1], k);
    last := StampIsLast(states, events, k, i);
    start := CutoffIs(states, events, i);
    StampIsStep(states[last], events[last], k);
  }

  lemma Collects(s: State, e: Event, s': State, k: string)
    requires Next(s, e, s') && k in Stale(s'.sweep) && k !in Stale(s.sweep)
    ensures s.sweep.Scan? && k in s.lastSeen && s.lastSeen[k] < s.sweep.cutoff
  {
  }

  /** Every call that has returned has stamped its key, except one that found the bucket on its second look: there
      another call had just made it. */
  lemma {:induction false} ReturnedCallsStamped(states: seq<State>, events: seq<Event>, t: CallId, i: nat)
    returns (m: int)
    requires Run(states, events) && i <= |events| && t in states[i].calls
    requires states[i].calls[t].pc == Pc.Done || states[i].calls[t].pc == Stamped
    ensures 0 <= m < i && events[m].Step? && events[m].actor == Caller(t) && t in states[m].calls
    ensures var k := states[i].calls[t].key;
            || Stamps(states[m], events[m], k)
            || (states[m].calls[t].pc == Writing && k in states[m].buckets)
  {
    var s, e, s' := states[i - 1], events[i - 1], states[i];
    assert Next(s, e, s');
    if t in s.calls && (s.calls[t].pc == Pc.Done || s.calls[t].pc == Stamped) {
      assert s.calls[t].key == s'.calls[t].key;
      m := ReturnedCallsStamped(states, events, t, i - 1);
    } else {
      m := i - 1;
    }
  }
}
