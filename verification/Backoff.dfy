/** backend/internal/jobqueue/backoff.go: exponential backoff in 64-bit arithmetic. */
module Backoff {
  import opened Basics
  import opened Int64

  const SECOND: int := 1_000_000_000

  function Pow2(n: nat): nat { if n == 0 then 1 else 2 * Pow2(n - 1) }

  lemma {:induction false} Pow2Ascends(m: nat, n: nat)
    requires m <= n
    ensures 1 <= Pow2(m) <= Pow2(n)
    decreases n
  {
    if m < n {
      Pow2Ascends(m, n - 1);
    } else if m > 0 {
      Pow2Ascends(m - 1, n - 1);
    }
  }

  lemma Pow2Of30()
    ensures Pow2(30) == 0x4000_0000
  {
    assert Pow2(5) == 32;
    assert Pow2(10) == 32 * 32;
    assert Pow2(15) == 32 * 32 * 32;
    assert Pow2(20) == 32 * 32 * 32 * 32;
    assert Pow2(25) == 32 * 32 * 32 * 32 * 32;
  }

  /** Base and Max in nanoseconds. */
  datatype Policy = Policy(base: int, max: int)

  function BaseOf(p: Policy): int { if p.base <= 0 then SECOND else p.base }

  function MaxOf(p: Policy): int { if p.max <= 0 then 300 * SECOND else p.max }

  /** min(attempt - 1, 30), for attempts counted from 1. */
  function ShiftOf(attempt: int): (s: nat)
    ensures s <= 30
  {
    if attempt < 1 then 0 else if attempt - 1 > 30 then 30 else attempt - 1
  }

  /** jitter(d) for the random number n. */
  function Jitter(d: int, n: nat): int { if d <= 0 then 0 else n % (d + 1) }

  lemma JitterRange(d: int, n: nat)
    requires 0 <= d
    ensures 0 <= Jitter(d, n) <= d
  {
  }

  function NextDelay(p: Policy, attempt: int, n: nat): int {
    var base, max := BaseOf(p), MaxOf(p);
    var d := Wrap64(base * Pow2(ShiftOf(attempt)));
    Wrap64((if d <= 0 || d > max then max else d) + Jitter(base / 2, n))
  }

  // ------------------------------------------------------------------------- what is meant

  ghost predicate Int64Policy(p: Policy) { p.base <= MAX_INT64 && p.max <= MAX_INT64 }

  /** Base doubled once per earlier attempt, saturating at Max. */
  function Ideal(p: Policy, attempt: int): int { Min(BaseOf(p) * Pow2(ShiftOf(attempt)), MaxOf(p)) }

  /** The delay is the ideal one plus the jitter, for every jitter. */
  ghost predicate Exact(p: Policy, attempt: int) {
    forall n: nat :: NextDelay(p, attempt, n) == Ideal(p, attempt) + Jitter(BaseOf(p) / 2, n)
  }

  /** The doubled base fits, or wraps to something that still counts as too large; and the jitter fits on top. */
  predicate Fits(p: Policy, attempt: int) {
    var exact := BaseOf(p) * Pow2(ShiftOf(attempt));
    && (exact <= MAX_INT64 || Wrap64(exact) <= 0 || Wrap64(exact) >= MaxOf(p))
    && Ideal(p, attempt) + BaseOf(p) / 2 <= MAX_INT64
  }

  lemma Positive(p: Policy, attempt: int)
    requires Int64Policy(p)
    ensures 0 < BaseOf(p) <= MAX_INT64 && 0 < MaxOf(p) <= MAX_INT64
    ensures BaseOf(p) <= BaseOf(p) * Pow2(ShiftOf(attempt))
  {
    Pow2Ascends(0, ShiftOf(attempt));
    Times(BaseOf(p), Pow2(ShiftOf(attempt)));
  }

  lemma Times(a: int, b: int)
    requires 0 < a && 1 <= b
    ensures a <= a * b
  {
  }

  /** The capped delay before jitter is the ideal one exactly when the first half of Fits holds. */
  lemma CappedIff(exact: int, max: int)
    requires 0 < exact && 0 < max <= MAX_INT64
    ensures var d := Wrap64(exact); var capped := if d <= 0 || d > max then max else d;
            && 0 < capped <= MAX_INT64
            && (capped == Min(exact, max) <==> exact <= MAX_INT64 || d <= 0 || d >= max)
  {
    if exact <= MAX_INT64 {
      WrapSmall(exact);
    }
  }

  lemma AddJitter(d: int, ideal: int, j: int)
    requires 0 < d <= MAX_INT64 && 0 <= j <= MAX_INT64 && 0 < ideal
    ensures d == ideal && ideal + j <= MAX_INT64 ==> Wrap64(d + j) == ideal + j
    ensures ideal + j > MAX_INT64 && d == ideal ==> Wrap64(d + j) != ideal + j
    ensures j == 0 ==> Wrap64(d + j) == d
  {
    if d + j <= MAX_INT64 {
      WrapSmall(d + j);
    } else {
      WrapOver(d + j);
    }
  }

  /** NextDelay is exact for an attempt if and only if the 64-bit arithmetic fits. */
  lemma ExactIff(p: Policy, attempt: int)
    requires Int64Policy(p)
    ensures Exact(p, attempt) <==> Fits(p, attempt)
  {
    hide Wrap64, Pow2;
    Positive(p, attempt);
    var base, max := BaseOf(p), MaxOf(p);
    var exact := base * Pow2(ShiftOf(attempt));
    var d := Wrap64(exact);
    var capped := if d <= 0 || d > max then max else d;
    CappedIff(exact, max);
    forall n: nat ensures NextDelay(p, attempt, n) == Wrap64(capped + Jitter(base / 2, n)) {
    }
    JitterEnds(base / 2);
    hide Jitter, NextDelay;
    AddJitter(capped, Ideal(p, attempt), 0);
    AddJitter(capped, Ideal(p, attempt), base / 2);
    if Fits(p, attempt) {
      forall n: nat ensures NextDelay(p, attempt, n) == Ideal(p, attempt) + Jitter(base / 2, n) {
        JitterRange(base / 2, n);
        AddJitter(capped, Ideal(p, attempt), Jitter(base / 2, n));
      }
    } else {
      var half: nat := base / 2;
      assert NextDelay(p, attempt, 0) == Wrap64(capped + Jitter(base / 2, 0));
      assert NextDelay(p, attempt, half) == Wrap64(capped + Jitter(base / 2, half));
    }
  }

  /** Both ends of the jitter's range occur. */
  lemma JitterEnds(d: nat)
    ensures Jitter(d, 0) == 0 && Jitter(d, d) == d
  {
  }

  /** A base below 2^33 ns (about 8.6 s) with a ceiling that leaves room for the jitter never overflows. */
  lemma SmallPoliciesFit(p: Policy, attempt: int)
    requires Int64Policy(p) && BaseOf(p) <= 0x1_FFFF_FFFF && MaxOf(p) <= MAX_INT64 - BaseOf(p) / 2
    ensures Fits(p, attempt)
  {
    hide Wrap64;
    Pow2Ascends(ShiftOf(attempt), 30);
    Pow2Of30();
    hide Pow2;
    Product(BaseOf(p), 0x1_FFFF_FFFF, Pow2(ShiftOf(attempt)), 0x4000_0000);
  }

  lemma Product(a: int, a': int, b: int, b': int)
    requires 0 <= a <= a' && 0 <= b <= b'
    ensures a * b <= a' * b'
  {
    assert a * b <= a' * b;
    assert a' * b <= a' * b';
  }

  /** The default policy, 5 s up to 5 min, is exact at every attempt. */
  lemma DefaultIsExact(attempt: int)
    ensures Exact(Policy(5 * SECOND, 300 * SECOND), attempt)
  {
    hide Exact, Fits;
    SmallPoliciesFit(Policy(5 * SECOND, 300 * SECOND), attempt);
    ExactIff(Policy(5 * SECOND, 300 * SECOND), attempt);
  }

  /** A base whose doublings fit is not enough: with the largest ceiling the jitter overflows from attempt 31. */
  lemma JitterOverflows(attempt: int)
    requires 31 <= attempt
    ensures var p := Policy(0x1_FFFF_FFFF, MAX_INT64);
            BaseOf(p) * Pow2(ShiftOf(attempt)) <= MAX_INT64 && !Exact(p, attempt)
  {
    var p := Policy(0x1_FFFF_FFFF, MAX_INT64);
    Pow2Of30();
    assert ShiftOf(attempt) == 30;
    assert BaseOf(p) * Pow2(ShiftOf(attempt)) == 0x1_FFFF_FFFF * 0x4000_0000;
    hide Wrap64, Pow2, Exact;
    ExactIff(p, attempt);
  }

  /** The delay before jitter starts at Base and doubles with each further attempt up to Max; from attempt 31 on it
      stays. A second and five minutes stand in for what is not set. */
  lemma IdealDoubles(p: Policy, attempt: int)
    ensures var base := if p.base > 0 then p.base else 1_000_000_000;
            var max := if p.max > 0 then p.max else 300_000_000_000;
            && (attempt <= 1 ==> Ideal(p, attempt) == Min(base, max))
            && (1 <= attempt <= 30 ==> Ideal(p, attempt + 1) == Min(2 * Ideal(p, attempt), max))
            && (31 <= attempt ==> Ideal(p, attempt) == Ideal(p, 31))
  {
    var base, max := BaseOf(p), MaxOf(p);
    if 1 <= attempt <= 30 {
      var n: nat := attempt - 1;
      assert ShiftOf(attempt) == n && ShiftOf(attempt + 1) == n + 1;
      assert base * Pow2(n + 1) == 2 * (base * Pow2(n));
    } else if attempt < 1 {
      assert ShiftOf(attempt) == 0;
    }
  }

  /** Every jitter in the range is drawn for some random number. */
  lemma JitterReaches(d: int, j: nat)
    requires j <= d
    ensures Jitter(d, j) == j
  {
  }
}
