/** backend/internal/retry/retry.go: the attempt loop with a doubling, jittered delay. */
module Retry {
  import opened Basics
  import opened Int64
  import opened Wrappers
  import opened Backoff

  datatype Error = Failure(text: string) | Cancelled

  /** Without a classifier every error is retried. */
  datatype RetryPolicy = RetryPolicy(maxAttempts: int, initial: int, max: int, isTransient: Option<Error -> bool>)

  function AttemptsOf(p: RetryPolicy): int { if p.maxAttempts < 1 then 1 else p.maxAttempts }

  function InitialOf(p: RetryPolicy): int { if p.initial <= 0 then SECOND / 2 else p.initial }

  function CeilingOf(p: RetryPolicy): int { if p.max <= 0 then 10 * SECOND else p.max }

  /** What the outside world does: op's answer to each call (None is nil), whether the context is done before
      a call or during the wait after it, and the random numbers drawn. */
  datatype World = World(op: nat -> Option<Error>, doneBefore: nat -> bool, doneDuring: nat -> bool,
                         random: nat -> nat)

  predicate Transient(p: RetryPolicy, e: Error) { p.isTransient.None? || p.isTransient.value(e) }

  /** The variable delay when attempt k fails. */
  function DelayAt(p: RetryPolicy, k: nat): int
    requires 1 <= k
  {
    if k == 1 then InitialOf(p)
    else
      var delay := DelayAt(p, k - 1);
      if delay < CeilingOf(p) then
        (var doubled := Wrap64(delay * 2); if doubled > CeilingOf(p) then CeilingOf(p) else doubled)
      else delay
  }

  /** retry.go's jitter(d): up to half of d. */
  function HalfJitter(d: int, n: nat): int { if d <= 0 then 0 else n % (d / 2 + 1) }

  function WaitAt(p: RetryPolicy, w: World, k: nat): int
    requires 1 <= k
  {
    Wrap64(DelayAt(p, k) + HalfJitter(DelayAt(p, k), w.random(k)))
  }

  /** Do. calls is how often op ran; waits are the timers it started. */
  method Do(p: RetryPolicy, w: World) returns (r: Option<Error>, calls: nat, waits: seq<int>)
    ensures calls <= AttemptsOf(p) && |waits| <= calls
    ensures AttemptsOf(p) == Max(1, p.maxAttempts)
    ensures forall k | 1 <= k <= |waits| :: waits[k - 1] == WaitAt(p, w, k)
    ensures forall k | 1 <= k < calls ::
              w.op(k).Some? && Transient(p, w.op(k).value) && !w.doneBefore(k) && !w.doneDuring(k)
    ensures r.None? <==> 1 <= calls && w.op(calls).None?
    ensures p.isTransient.None? && r.Some? && r.value != Cancelled ==> calls == AttemptsOf(p)
    ensures p.isTransient.Some? && r.Some? && r.value != Cancelled ==>
              calls == AttemptsOf(p) || !p.isTransient.value(r.value)
    ensures p.isTransient.Some? ==> forall k | 1 <= k < calls :: w.op(k).Some? && p.isTransient.value(w.op(k).value)
    ensures r.Some? && r.value != Cancelled ==>
              1 <= calls && r == w.op(calls) && (calls == AttemptsOf(p) || !Transient(p, r.value))
    ensures r == Some(Cancelled) ==>
              || (1 <= calls && w.op(calls) == r)
              || (calls < AttemptsOf(p) && w.doneBefore(calls + 1))
              || (1 <= calls == |waits| && w.doneDuring(calls))
  {
    hide Wrap64, HalfJitter;
    var maxAttempts := if p.maxAttempts < 1 then 1 else p.maxAttempts;
    var initial := if p.initial <= 0 then SECOND / 2 else p.initial;
    var max := if p.max <= 0 then 10 * SECOND else p.max;
    var delay := initial;
    var lastErr: Option<Error> := None;
    calls, waits := 0, [];
    var attempt := 1;
    while attempt <= maxAttempts
      invariant 1 <= attempt <= maxAttempts + 1 && calls == attempt - 1 == |waits|
      invariant delay == DelayAt(p, attempt)
      invariant forall k | 1 <= k <= |waits| :: waits[k - 1] == WaitAt(p, w, k)
      invariant forall k | 1 <= k <= calls ::
                  w.op(k).Some? && Transient(p, w.op(k).value) && !w.doneBefore(k) && !w.doneDuring(k)
      invariant calls < maxAttempts
    {
      if w.doneBefore(attempt) {
        return Some(Cancelled), calls, waits;
      }
      var err := w.op(attempt);
      calls := calls + 1;
      if err.None? {
        return None, calls, waits;
      }
      lastErr := err;
      if attempt == maxAttempts {
        break;
      }
      if !Transient(p, err.value) {
        break;
      }
      waits := waits + [Wrap64(delay + HalfJitter(delay, w.random(attempt)))];
      if w.doneDuring(attempt) {
        return Some(Cancelled), calls, waits;
      }
      if delay < max {
        delay := Wrap64(delay * 2);
        if delay > max {
          delay := max;
        }
      }
      attempt := attempt + 1;
    }
    return lastErr, calls, waits;
  }

  // -------------------------------------------------------------------- what is promised

  /** The initial delay, doubled after each failure, up to the ceiling. */
  function IdealAt(p: RetryPolicy, k: nat): int
    requires 1 <= k
  {
    if k == 1 then Min(InitialOf(p), CeilingOf(p)) else Min(2 * IdealAt(p, k - 1), CeilingOf(p))
  }

  lemma TwiceAsMuch(a: int, b: int)
    ensures a * (2 * b) == 2 * (a * b)
  {
  }

  /** Half a second and ten seconds stand in for what is not set. */
  lemma {:induction false} IdealIsPower(p: RetryPolicy, k: nat)
    requires 1 <= k
    ensures var initial := if p.initial > 0 then p.initial else 500_000_000;
            var ceiling := if p.max > 0 then p.max else 10_000_000_000;
            IdealAt(p, k) == Min(initial * Pow2(k - 1), ceiling)
  {
    if k > 1 {
      IdealIsPower(p, k - 1);
      assert Pow2(k - 1) == 2 * Pow2(k - 2);
      hide Pow2;
      assert IdealAt(p, k) == Min(2 * IdealAt(p, k - 1), CeilingOf(p));
      hide IdealAt;
      TwiceAsMuch(InitialOf(p), Pow2(k - 2));
    }
  }

  lemma {:induction false} IdealAscends(p: RetryPolicy, j: nat, k: nat)
    requires 1 <= j <= k
    ensures 0 < IdealAt(p, j) <= IdealAt(p, k) <= CeilingOf(p)
    decreases k
  {
    if j < k {
      IdealAscends(p, j, k - 1);
    } else if j > 1 {
      IdealAscends(p, j - 1, k - 1);
    }
  }

  ghost predicate Int64Retry(p: RetryPolicy) { p.initial <= MAX_INT64 && p.max <= MAX_INT64 }

  /** Doubling what is still below the ceiling fits in 64 bits, for the first n delays. */
  ghost predicate DoublingFits(p: RetryPolicy, n: nat) {
    forall k | 1 <= k < n :: IdealAt(p, k) < CeilingOf(p) ==> 2 * IdealAt(p, k) <= MAX_INT64
  }

  ghost predicate DelaysExact(p: RetryPolicy, n: nat) {
    forall k | 1 <= k <= n :: DelayAt(p, k) == IdealAt(p, k)
  }

  lemma OneMore(p: RetryPolicy, n: nat)
    requires 1 <= n
    ensures DelaysExact(p, n + 1) <==> DelaysExact(p, n) && DelayAt(p, n + 1) == IdealAt(p, n + 1)
    ensures DoublingFits(p, n + 1)
            <==> DoublingFits(p, n) && (IdealAt(p, n) < CeilingOf(p) ==> 2 * IdealAt(p, n) <= MAX_INT64)
  {
    hide DelayAt, IdealAt;
  }

  /** The first n delays are the promised ones if and only if the initial delay is within the ceiling and
      the doubling fits. */
  lemma {:induction false} DelaysExactIff(p: RetryPolicy, n: nat)
    requires Int64Retry(p) && 1 <= n
    ensures DelaysExact(p, n) <==> InitialOf(p) <= CeilingOf(p) && DoublingFits(p, n)
  {
    hide Wrap64;
    if n == 1 {
      assert DelaysExact(p, 1) <==> DelayAt(p, 1) == IdealAt(p, 1);
    } else {
      DelaysExactIff(p, n - 1);
      OneMore(p, n - 1);
      if DelaysExact(p, n - 1) {
        IdealAscends(p, n - 1, n - 1);
        OneDoubling(p, n - 1);
      }
    }
  }

  lemma OneDoubling(p: RetryPolicy, k: nat)
    requires Int64Retry(p) && 1 <= k && DelayAt(p, k) == IdealAt(p, k) && 0 < IdealAt(p, k) <= CeilingOf(p)
    ensures DelayAt(p, k + 1) == IdealAt(p, k + 1)
            <==> (IdealAt(p, k) < CeilingOf(p) ==> 2 * IdealAt(p, k) <= MAX_INT64)
  {
    var d := IdealAt(p, k);
    if d < CeilingOf(p) {
      if 2 * d <= MAX_INT64 {
        WrapSmall(2 * d);
      } else {
        WrapOver(2 * d);
      }
    }
  }

  /** The k-th wait lies between the promised delay and one and a half times that, whatever is drawn. */
  ghost predicate WaitInRange(p: RetryPolicy, k: nat)
    requires 1 <= k
  {
    forall w: World :: IdealAt(p, k) <= WaitAt(p, w, k) <= IdealAt(p, k) + IdealAt(p, k) / 2
  }

  lemma {:induction false} DelayIsInt64(p: RetryPolicy, k: nat)
    requires Int64Retry(p) && 1 <= k
    ensures -0x8000_0000_0000_0000 <= DelayAt(p, k) <= MAX_INT64
  {
    hide Wrap64;
    if k > 1 {
      DelayIsInt64(p, k - 1);
      WrapRange(DelayAt(p, k - 1) * 2);
    }
  }

  lemma WrapRange(x: int)
    ensures -0x8000_0000_0000_0000 <= Wrap64(x) <= MAX_INT64
  {
  }

  /** A world in which attempt k draws n. */
  function Drawing(n: nat): World { World(_ => None, _ => false, _ => false, _ => n) }

  /** One wait is in range for every draw if and only if its delay is the promised one and half of that
      fits on top of it. */
  lemma WaitInRangeIff(p: RetryPolicy, k: nat)
    requires Int64Retry(p) && 1 <= k
    ensures WaitInRange(p, k) <==> DelayAt(p, k) == IdealAt(p, k) && IdealAt(p, k) + IdealAt(p, k) / 2 <= MAX_INT64
  {
    hide Wrap64, HalfJitter, DelayAt, IdealAt;
    IdealAscends(p, k, k);
    DelayIsInt64(p, k);
    var d, ideal := DelayAt(p, k), IdealAt(p, k);
    if d == ideal && ideal + ideal / 2 <= MAX_INT64 {
      forall w: World ensures ideal <= WaitAt(p, w, k) <= ideal + ideal / 2 {
        HalfJitterRange(d, w.random(k));
        WrapSmall(d + HalfJitter(d, w.random(k)));
      }
    } else {
      ExtremeDraws(d);
      var least, most := WaitAt(p, Drawing(0), k), WaitAt(p, Drawing(if d > 0 then d / 2 else 0), k);
      assert least == Wrap64(d);
      WrapSmall(d);
      assert d > 0 ==> most == Wrap64(d + d / 2);
      if d > 0 && d + d / 2 <= MAX_INT64 {
        WrapSmall(d + d / 2);
      } else if d > 0 {
        WrapOver(d + d / 2);
      }
      assert !(ideal <= least <= ideal + ideal / 2) || !(ideal <= most <= ideal + ideal / 2);
    }
  }

  lemma ExtremeDraws(d: int)
    ensures HalfJitter(d, 0) == 0
    ensures d > 0 ==> HalfJitter(d, d / 2) == d / 2
  {
  }

  ghost predicate WaitsInRange(p: RetryPolicy, n: nat) { forall k | 1 <= k <= n :: WaitInRange(p, k) }

  /** The first n waits all lie between the promised delay and one and a half times it, whatever is drawn, if and only
      if the initial delay is within the ceiling, the doubling fits, and the largest delay leaves room for the
      jitter. */
  lemma WaitsInRangeIff(p: RetryPolicy, n: nat)
    requires Int64Retry(p) && 1 <= n
    ensures WaitsInRange(p, n) <==>
            InitialOf(p) <= CeilingOf(p) && DoublingFits(p, n) && IdealAt(p, n) + IdealAt(p, n) / 2 <= MAX_INT64
  {
    hide WaitInRange, DelayAt, IdealAt;
    DelaysExactIff(p, n);
    forall k | 1 <= k <= n
      ensures WaitInRange(p, k) <==> DelayAt(p, k) == IdealAt(p, k) && IdealAt(p, k) + IdealAt(p, k) / 2 <= MAX_INT64
      ensures IdealAt(p, k) <= IdealAt(p, n)
    {
      WaitInRangeIff(p, k);
      IdealAscends(p, k, n);
    }
    assert WaitsInRange(p, n) ==> WaitInRange(p, n);
  }

  /** In particular whenever the ceiling is at most 2^62 ns, however often op fails. */
  lemma ModerateCeilings(p: RetryPolicy, n: nat)
    requires Int64Retry(p) && 1 <= n && InitialOf(p) <= CeilingOf(p) <= 0x4000_0000_0000_0000
    ensures WaitsInRange(p, n)
  {
    hide IdealAt, WaitsInRange;
    IdealAscends(p, n, n);
    assert DoublingFits(p, n) by {
      forall j | 1 <= j < n ensures IdealAt(p, j) < CeilingOf(p) ==> 2 * IdealAt(p, j) <= MAX_INT64 {
        IdealAscends(p, j, j);
      }
    }
    WaitsInRangeIff(p, n);
  }

  /** Delays can be exact and a wait overflow all the same: with Initial and Max at the largest duration. */
  lemma WaitOverflows(attempts: int, n: nat)
    requires 1 <= n
    ensures var p := RetryPolicy(attempts, MAX_INT64, MAX_INT64, None); DelaysExact(p, n) && !WaitInRange(p, n)
  {
    var p := RetryPolicy(attempts, MAX_INT64, MAX_INT64, None);
    hide WaitInRange;
    AtCeiling(p, n);
    WaitInRangeIff(p, n);
  }

  lemma {:induction false} AtCeiling(p: RetryPolicy, n: nat)
    requires 1 <= n && InitialOf(p) == CeilingOf(p)
    ensures DelaysExact(p, n) && IdealAt(p, n) == CeilingOf(p)
  {
    hide Wrap64;
    if n > 1 {
      AtCeiling(p, n - 1);
      assert DelayAt(p, n - 1) == IdealAt(p, n - 1);
      OneMore(p, n - 1);
    }
  }

  lemma HalfJitterRange(d: int, n: nat)
    requires 0 <= d
    ensures 0 <= HalfJitter(d, n) <= d / 2
  {
  }

  /** A ceiling just above 2^62 ns already breaks the doubling: the second delay wraps to the least integer. */
  lemma DoublingOverflows(attempts: int)
    ensures var p := RetryPolicy(attempts, 0x4000_0000_0000_0000, 0x4000_0000_0000_0001, None);
            Int64Retry(p) && InitialOf(p) <= CeilingOf(p) && DelayAt(p, 2) == -0x8000_0000_0000_0000
  {
    var p := RetryPolicy(attempts, 0x4000_0000_0000_0000, 0x4000_0000_0000_0001, None);
    assert DelayAt(p, 1) == 0x4000_0000_0000_0000;
  }

  /** An initial delay above the ceiling is used unchanged at every attempt: the ceiling never applies. */
  lemma {:induction false} LargeInitialIgnoresCeiling(p: RetryPolicy, k: nat)
    requires 1 <= k && CeilingOf(p) < InitialOf(p)
    ensures DelayAt(p, k) == InitialOf(p)
  {
    if k > 1 {
      LargeInitialIgnoresCeiling(p, k - 1);
    }
  }
}
