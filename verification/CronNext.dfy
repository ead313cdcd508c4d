/** backend/internal/scheduler/cron.go: the calendar search of Cron.Next, against the least matching minute. */
module CronNext {
  import opened Wrappers
  import opened Calendar
  import opened CronParse

  // ------------------------------------------------------------------ specification

  ghost predicate IsFull(m: Mask, spec: FieldSpec) {
    forall v | 0 <= v < 64 :: m[v] <==> spec.min <= v <= spec.max
  }

  /** The day rule of the crontab utility (IEEE Std 1003.1, INPUT FILES section): when both the day of the
      month and the day of the week are restricted, either may match; otherwise both must. */
  ghost predicate DayMatches(c: Cron, n: int) {
    if !IsFull(c.dom, DAYS) && !IsFull(c.dow, WEEKDAYS)
    then Bit(c.dom, DayOf(n)) || Bit(c.dow, WeekdayOf(n))
    else Bit(c.dom, DayOf(n)) && Bit(c.dow, WeekdayOf(n))
  }

  /** Wall-clock minute w, counted from the zero date, matches all five fields. */
  ghost predicate WallMatches(c: Cron, w: int) {
    && Bit(c.month, MonthOf(w / 1440))
    && DayMatches(c, w / 1440)
    && Bit(c.hour, w % 1440 / 60)
    && Bit(c.minute, w % 60)
  }

  /** The k-th whole minute since the zero time matches, read in zone loc. */
  ghost predicate Matches(c: Cron, loc: Location, k: int) { WallMatches(c, k + loc.offset) }

  /** No whole minute strictly between the instants a and b matches. */
  ghost predicate NoneBetween(c: Cron, loc: Location, a: int, b: int) {
    forall k | Matches(c, loc, k) :: !(a < k * MINUTE < b)
  }

  /** t is the least matching whole minute strictly after from. */
  ghost predicate IsLeastAfter(c: Cron, loc: Location, from: int, t: int) {
    && t % MINUTE == 0 && from < t
    && Matches(c, loc, t / MINUTE)
    && NoneBetween(c, loc, from, t)
  }

  /** What Next promises: the least matching minute if it lies before from plus four years, or an error. */
  ghost predicate IsNext(c: Cron, from: Time, loc: Location, r: Option<Time>) {
    match r
    case Some(t) => t.loc == loc && t.ns < AddYears(from, 4) && IsLeastAfter(c, loc, from.ns, t.ns)
    case None => NoneBetween(c, loc, from.ns, AddYears(from, 4))
  }

  /** The promise leaves no choice: there is one answer. */
  lemma NextUnique(c: Cron, from: Time, loc: Location, r: Option<Time>, s: Option<Time>)
    requires IsNext(c, from, loc, r) && IsNext(c, from, loc, s)
    ensures r == s
  {
    hide Matches, AddYears;
    if r.Some? {
      assert r.value.ns / MINUTE * MINUTE == r.value.ns;
    }
    if s.Some? {
      assert s.value.ns / MINUTE * MINUTE == s.value.ns;
    }
  }

  // ------------------------------------------------------------------------- jumps

  ghost predicate NoneIn(c: Cron, w: int, w': int) {
    forall x | w <= x < w' :: !WallMatches(c, x)
  }

  lemma NoneInOne(c: Cron, w: int)
    requires !WallMatches(c, w)
    ensures NoneIn(c, w, w + 1)
  {
  }

  lemma MonthJump(c: Cron, w: int)
    requires !Bit(c.month, MonthOf(w / 1440))
    ensures var n := w / 1440; var next := MonthStart(YearOf(n), MonthOf(n) + 1) * 1440;
            w < next && NoneIn(c, w, next)
  {
    var n := w / 1440;
    var y, m := YearOf(n), MonthOf(n);
    forall x | w <= x < MonthStart(y, m + 1) * 1440 ensures !WallMatches(c, x) {
      MonthInYear(y, m);
      SameYear(x / 1440, y);
      SameMonth(x / 1440, y, m);
    }
  }

  lemma DayJump(c: Cron, w: int)
    requires !DayMatches(c, w / 1440)
    ensures w < (w / 1440 + 1) * 1440 && NoneIn(c, w, (w / 1440 + 1) * 1440)
  {
    forall x | w <= x < (w / 1440 + 1) * 1440 ensures !WallMatches(c, x) {
      assert x / 1440 == w / 1440;
    }
  }

  lemma HourJump(c: Cron, w: int)
    requires !Bit(c.hour, w % 1440 / 60)
    ensures var next := w / 1440 * 1440 + (w % 1440 / 60 + 1) * 60; w < next && NoneIn(c, w, next)
  {
    var d, h := w / 1440, w % 1440 / 60;
    forall x | w <= x < d * 1440 + (h + 1) * 60 ensures !WallMatches(c, x) {
      assert x / 1440 == d && x % 1440 / 60 == h;
    }
  }

  // -------------------------------------------------------------------------- code

  /** fullMask */
  method FullMask(spec: FieldSpec) returns (m: Mask)
    requires spec.Valid()
    ensures IsFull(m, spec)
    ensures forall other: Mask :: other == m <==> IsFull(other, spec)
  {
    m := seq(64, _ => false);
    var v := spec.min;
    while v <= spec.max
      invariant spec.min <= v <= spec.max + 1
      invariant forall w | 0 <= w < 64 :: m[w] <==> spec.min <= w < v
    {
      m := SetBit(m, v);
      v := v + 1;
    }
  }

  /** The four-way switch over restricted and unrestricted day fields. */
  method DayOk(c: Cron, t: int, loc: Location) returns (ok: bool)
    ensures ok <==> DayMatches(c, DayNumber(t, loc))
  {
    var fullDom := FullMask(DAYS);
    var fullDow := FullMask(WEEKDAYS);
    var domAny, dowAny := c.dom == fullDom, c.dow == fullDow;
    var n := DayNumber(t, loc);
    var domOk, dowOk := Bit(c.dom, DayOf(n)), Bit(c.dow, WeekdayOf(n));
    if domAny && dowAny {
      ok := true;
    } else if domAny {
      ok := dowOk;
    } else if dowAny {
      ok := domOk;
    } else {
      ok := domOk || dowOk;
    }
  }

  /** The instant at which zone loc's wall clock shows minute w. */
  function Instant(w: int, loc: Location): int { (w - loc.offset) * MINUTE }

  lemma WallClock(w: int, loc: Location)
    ensures LocalMinute(Instant(w, loc), loc) == w
  {
  }

  lemma InstantMonotone(w: int, w': int, loc: Location)
    requires w < w'
    ensures Instant(w, loc) < Instant(w', loc)
  {
  }

  lemma DateOfDay(n: int, days: int, h: int, loc: Location)
    ensures Date(YearOf(n), MonthOf(n), DayOf(n) + days, h, loc) == Instant((n + days) * 1440 + h * 60, loc)
  {
  }

  /** The code's year-and-month arithmetic for the first of the next month. */
  method NextMonth(n: int, loc: Location) returns (t: int)
    ensures t == Instant(MonthStart(YearOf(n), MonthOf(n) + 1) * 1440, loc)
  {
    var y, m := YearOf(n), MonthOf(n) + 1;
    MonthsFillYear(y);
    if m > 12 {
      y := y + 1;
      m := 1;
    }
    t := Date(y, m, 1, 0, loc);
  }

  /** One iteration of the search: either wall-clock minute w matches, or the next candidate
      is later and nothing in between matches. */
  method Advance(c: Cron, t: int, loc: Location, ghost w: int) returns (found: bool, t': int, ghost w': int)
    requires t == Instant(w, loc)
    ensures found <==> WallMatches(c, w)
    ensures !found ==> w < w' && t' == Instant(w', loc) && NoneIn(c, w, w')
  {
    hide YearOf, MonthOf, DayOf, DayMatches, NoneIn;
    WallClock(w, loc);
    var n := DayNumber(t, loc);
    found, t', w' := false, t, w;
    if !Bit(c.month, MonthOf(n)) {
      MonthJump(c, w);
      t' := NextMonth(n, loc);
      w' := MonthStart(YearOf(n), MonthOf(n) + 1) * 1440;
      return;
    }
    var dayOk := DayOk(c, t, loc);
    if !dayOk {
      DayJump(c, w);
      DateOfDay(n, 1, 0, loc);
      t' := Date(YearOf(n), MonthOf(n), DayOf(n) + 1, 0, loc);
      w' := (n + 1) * 1440;
      return;
    }
    if !Bit(c.hour, Hour(t, loc)) {
      HourJump(c, w);
      DateOfDay(n, 0, Hour(t, loc) + 1, loc);
      t' := Date(YearOf(n), MonthOf(n), DayOf(n), Hour(t, loc) + 1, loc);
      w' := n * 1440 + (Hour(t, loc) + 1) * 60;
      return;
    }
    if !Bit(c.minute, Minute(t, loc)) {
      NoneInOne(c, w);
      t' := t + MINUTE;
      w' := w + 1;
      return;
    }
    found := true;
  }

  method Next(c: Cron, from: Time, zone: Option<Location>) returns (r: Option<Time>)
    ensures IsNext(c, from, if zone.None? then UTC else zone.value, r)
  {
    hide WallMatches, NoneIn, AddYears, Instant, NoneBetween;
    var loc := if zone.None? then UTC else zone.value;
    var t := (from.ns + MINUTE) / MINUTE * MINUTE;
    var deadline := AddYears(from, 4);
    ghost var first := (from.ns + MINUTE) / MINUTE + loc.offset;
    ghost var w := first;  // the wall-clock minute t stands for
    FirstCandidate(c, loc, from.ns);
    while t < deadline
      invariant t == Instant(w, loc) && first <= w
      invariant NoneIn(c, first, w)
      decreases deadline - t
    {
      var found, t', w' := Advance(c, t, loc, w);
      if found {
        NoneBefore(c, loc, from.ns, first, w, t);
        IsAfter(loc, from.ns, w);
        return Some(Time(t, loc));
      }
      InstantMonotone(w, w', loc);
      NoneInJoin(c, first, w, w');
      t, w := t', w';
    }
    NoneBefore(c, loc, from.ns, first, w, deadline);
    return None;
  }

  lemma FirstCandidate(c: Cron, loc: Location, from: int)
    ensures var first := (from + MINUTE) / MINUTE + loc.offset;
            (from + MINUTE) / MINUTE * MINUTE == Instant(first, loc) && NoneIn(c, first, first)
  {
  }

  lemma NoneInJoin(c: Cron, a: int, b: int, d: int)
    requires NoneIn(c, a, b) && NoneIn(c, b, d)
    ensures NoneIn(c, a, d)
  {
  }

  lemma IsAfter(loc: Location, from: int, w: int)
    requires (from + MINUTE) / MINUTE + loc.offset <= w
    ensures var t := Instant(w, loc); t % MINUTE == 0 && from < t && t / MINUTE + loc.offset == w
  {
    WholeMinute(w - loc.offset, from);
  }

  lemma WholeMinute(k: int, from: int)
    ensures k * MINUTE % MINUTE == 0 && k * MINUTE / MINUTE == k
    ensures (from + MINUTE) / MINUTE <= k ==> from < k * MINUTE
  {
  }

  lemma NoneBefore(c: Cron, loc: Location, from: int, first: int, w: int, end: int)
    requires first == (from + MINUTE) / MINUTE + loc.offset && NoneIn(c, first, w) && end <= Instant(w, loc)
    ensures NoneBetween(c, loc, from, end)
  {
    forall k | Matches(c, loc, k) ensures !(from < k * MINUTE < end) {
      assert from < k * MINUTE < end ==> first <= k + loc.offset < w;
    }
  }
}
