/** backend/internal/scheduler/cron.go: compiling a five-field cron expression to bitmasks. */
module CronParse {
  import opened Int64
  import opened Wrappers
  import opened Text

  // --------------------------------------------------------------- 64-bit words

  /** A uint64 used as a bitmask, bit v at index v. */
  type Mask = m: seq<bool> | |m| == 64 witness seq(64, _ => false)

  /** m == 0 */
  predicate IsZero(m: Mask) { forall v | 0 <= v < 64 :: !m[v] }

  predicate Bit(m: Mask, v: int) { 0 <= v < 64 && m[v] }

  /** m | 1 << uint(v); a shift count outside 0..63, as a negative v gives, shifts the one out. */
  function SetBit(m: Mask, v: int): Mask { if 0 <= v < 64 then m[v := true] else m }

  /** d is n added to itself some number of times. */
  predicate IsMultiple(d: int, n: int)
    requires 0 < n
  {
    d == 0 || (d >= n && IsMultiple(d - n, n))
  }

  lemma {:induction false} BetweenMultiples(d: int, x: int, n: int)
    requires 0 < x < n && IsMultiple(d, n)
    ensures !IsMultiple(d + x, n)
  {
    if d != 0 {
      BetweenMultiples(d - n, x, n);
      assert d + x - n == d - n + x;
    }
  }

  // ------------------------------------------------------------- one list element

  datatype FieldSpec = FieldSpec(min: int, max: int)
  {
    predicate Valid() { 0 <= min <= max < 64 }
  }

  const MINUTES := FieldSpec(0, 59)
  const HOURS := FieldSpec(0, 23)
  const DAYS := FieldSpec(1, 31)
  const MONTHS := FieldSpec(1, 12)
  const WEEKDAYS := FieldSpec(0, 6)

  datatype FieldError = EmptyElement | BadStep | BadNumber | OutOfRange | MatchesNothing

  /** A decoded element: from lo to hi by step. */
  datatype Part = Part(lo: int, hi: int, step: int)
  {
    predicate InRange(spec: FieldSpec) {
      spec.min <= lo <= hi <= spec.max && 1 <= step <= MAX_INT64
    }

    /** What the syntax promises: v is lo + j * step for some j >= 0 and does not exceed hi. */
    predicate Denotes(v: int)
      requires 0 < step
    {
      lo <= v <= hi && IsMultiple(v - lo, step)
    }

    /** What the 64-bit loop counter adds when lo + step overflows: lo, less multiples of 2^64 - 2 * step. */
    predicate Strays(v: int)
      requires step <= MAX_INT64
    {
      0 <= v < lo && IsMultiple(lo - v, 2 * (TWO63 - step))
    }

    predicate Hits(v: int)
      requires 1 <= step <= MAX_INT64
    {
      Denotes(v) || Strays(v)
    }
  }

  function ParseBounds(s: string, step: int, spec: FieldSpec): (r: Result<Part, FieldError>)
    ensures r.Ok? && 1 <= step <= MAX_INT64 && spec.Valid() ==> r.value.InRange(spec)
  {
    if s == "*" then Checked(Part(spec.min, spec.max, step), spec)
    else
      var dash := IndexOf(s, '-');
      if dash < |s| then
        var a, b := Atoi(s[..dash]), Atoi(s[dash + 1..]);
        if a.None? || b.None? then Err(BadNumber) else Checked(Part(a.value, b.value, step), spec)
      else
        var n := Atoi(s);
        if n.None? then Err(BadNumber) else Checked(Part(n.value, n.value, step), spec)
  }

  function Checked(p: Part, spec: FieldSpec): Result<Part, FieldError> {
    if p.lo < spec.min || p.hi > spec.max || p.lo > p.hi then Err(OutOfRange) else Ok(p)
  }

  function ParsePart(element: string, spec: FieldSpec): (r: Result<Part, FieldError>)
    requires spec.Valid()
    ensures r.Ok? ==> r.value.InRange(spec)
  {
    var s := TrimSpace(element);
    if s == "" then Err(EmptyElement)
    else
      var slash := IndexOf(s, '/');
      if slash == |s| then ParseBounds(s, 1, spec)
      else
        var step := Atoi(s[slash + 1..]);
        if step.None? || step.value <= 0 then Err(BadStep)
        else
          var range := if slash == 0 || s[..slash] == "*" then Itoa(spec.min) + "-" + Itoa(spec.max) else s[..slash];
          ParseBounds(range, step.value, spec)
  }

  // -------------------------------------------------------------------- one field

  function ParseParts(elements: seq<string>, spec: FieldSpec): (r: Result<seq<Part>, FieldError>)
    requires spec.Valid()
    ensures r.Ok? ==> |r.value| == |elements| && forall i | 0 <= i < |elements| :: r.value[i].InRange(spec)
  {
    if elements == [] then Ok([])
    else
      var head := ParsePart(elements[0], spec);
      if head.Err? then Err(head.error)
      else
        var tail := ParseParts(elements[1..], spec);
        if tail.Err? then tail else Ok([head.value] + tail.value)
  }

  ghost predicate SomeHits(parts: seq<Part>, v: int)
    requires forall i | 0 <= i < |parts| :: 1 <= parts[i].step <= MAX_INT64
  {
    exists i | 0 <= i < |parts| :: parts[i].Hits(v)
  }

  ghost function MaskOf(parts: seq<Part>): Mask
    requires forall i | 0 <= i < |parts| :: 1 <= parts[i].step <= MAX_INT64
  {
    seq(64, v requires 0 <= v < 64 => SomeHits(parts, v))
  }

  ghost function MaskOrError(parts: Result<seq<Part>, FieldError>): Result<Mask, FieldError>
    requires parts.Ok? ==> forall i | 0 <= i < |parts.value| :: 1 <= parts.value[i].step <= MAX_INT64
  {
    if parts.Err? then Err(parts.error)
    else if IsZero(MaskOf(parts.value)) then Err(MatchesNothing)
    else Ok(MaskOf(parts.value))
  }

  /** What parseField returns: the first element error, or the mask of every value some element hits. */
  ghost function FieldMask(field: string, spec: FieldSpec): Result<Mask, FieldError>
    requires spec.Valid()
  {
    MaskOrError(ParseParts(Split(field, ','), spec))
  }

  // ------------------------------------------------------------ the counting loop

  /** Distance between two stray values. */
  function StrayStep(p: Part): (k: int)
    requires p.step <= MAX_INT64
    ensures 0 < k
  {
    2 * (TWO63 - p.step)
  }

  lemma NextDenoted(p: Part, v: int)
    requires 0 < p.step && p.lo <= v <= p.hi && IsMultiple(v - p.lo, p.step)
    ensures IsMultiple(v + p.step - p.lo, p.step)
    ensures forall w | v < w < v + p.step :: !p.Denotes(w)
  {
    forall w | v < w < v + p.step ensures !p.Denotes(w) {
      BetweenMultiples(v - p.lo, w - v, p.step);
    }
  }

  lemma NextStray(p: Part, e: int)
    requires p.step <= MAX_INT64 && e <= p.lo && IsMultiple(p.lo - e, StrayStep(p))
    ensures IsMultiple(p.lo - (e - StrayStep(p)), StrayStep(p))
    ensures forall w | e - StrayStep(p) < w < e :: !p.Strays(w)
  {
    forall w | e - StrayStep(p) < w < e ensures !p.Strays(w) {
      BetweenMultiples(p.lo - e, e - w, StrayStep(p));
    }
  }

  /** Without overflow: the counter has passed some of the denoted values and set their bits. */
  ghost predicate Straight(p: Part, out: Mask, m: Mask, v: int)
    requires 1 <= p.step <= MAX_INT64
  {
    && p.lo <= v <= p.hi + p.step && IsMultiple(v - p.lo, p.step)
    && forall w | 0 <= w < 64 :: Bit(m, w) <==> Bit(out, w) || (w < v && p.Denotes(w))
  }

  lemma StraightStep(p: Part, out: Mask, m: Mask, v: int)
    requires 0 <= p.lo <= p.hi < 64 && 1 <= p.step <= MAX_INT64 && p.lo + p.step < TWO63
    requires Straight(p, out, m, v) && v <= p.hi
    ensures Straight(p, out, SetBit(m, v), Wrap64(v + p.step)) && v < Wrap64(v + p.step)
  {
    NextDenoted(p, v);
    StepFits(p, v);
    assert p.Denotes(v);
    hide IsMultiple;
    assert forall w | 0 <= w < 64 :: Bit(SetBit(m, v), w) <==> Bit(m, w) || w == v;
  }

  lemma StepFits(p: Part, v: int)
    requires 0 <= p.lo <= v <= p.hi < 64 && 1 <= p.step && p.lo + p.step < TWO63 && IsMultiple(v - p.lo, p.step)
    ensures Wrap64(v + p.step) == v + p.step
  {
    if v > p.lo {
      assert v - p.lo >= p.step;
    }
  }

  lemma StraightEnd(p: Part, out: Mask, m: Mask, v: int)
    requires 0 <= p.lo <= p.hi < 64 && 1 <= p.step <= MAX_INT64 && p.lo + p.step < TWO63
    requires Straight(p, out, m, v) && v > p.hi
    ensures forall w | 0 <= w < 64 :: Bit(m, w) <==> Bit(out, w) || p.Hits(w)
  {
    forall w ensures !p.Strays(w) {
    }
    hide IsMultiple;
  }

  /** With overflow: e is the next value that can set a bit. The counter is at e (phase 1), one addition before it
      (phase 2), or past hi with nothing left to set (phase 0). */
  ghost predicate Wrapped(p: Part, out: Mask, m: Mask, v: int, e: int, phase: int)
    requires 1 <= p.step <= MAX_INT64
  {
    && -StrayStep(p) <= e <= p.lo && IsMultiple(p.lo - e, StrayStep(p))
    && ((phase == 0 && v > p.hi && e < StrayStep(p)) || (phase == 1 && v == e) || (phase == 2 && v == e - p.step))
    && forall w | 0 <= w < 64 :: Bit(m, w) <==> Bit(out, w) || ((phase == 0 || e < w) && (w == p.lo || p.Strays(w)))
  }

  lemma WrappedStep(p: Part, out: Mask, m: Mask, v: int, e: int, phase: int) returns (e': int, phase': int)
    requires 0 <= p.lo <= p.hi < 64 && 1 <= p.step <= MAX_INT64 && p.lo + p.step >= TWO63
    requires Wrapped(p, out, m, v, e, phase) && v <= p.hi
    ensures Wrapped(p, out, SetBit(m, v), Wrap64(v + p.step), e', phase')
    ensures -StrayStep(p) <= e' && (e' < e || (e' == e && 0 <= phase' < phase))
  {
    e', phase' := e, 1;
    if phase == 1 {
      NextStray(p, e);
      StrayHere(p, e);
      if e >= TWO63 - p.step {
        e', phase' := e - StrayStep(p), 2;
      } else {
        NoStrayBelow(p, e);
        phase' := 0;
      }
    }
    hide IsMultiple;
    assert forall w | 0 <= w < 64 :: Bit(SetBit(m, v), w) <==> Bit(m, w) || w == v;
  }

  lemma StrayHere(p: Part, e: int)
    requires 1 <= p.step <= MAX_INT64 && e <= p.lo && IsMultiple(p.lo - e, StrayStep(p))
    ensures 0 <= e < p.lo ==> p.Strays(e)
  {
  }

  lemma NoStrayBelow(p: Part, e: int)
    requires 1 <= p.step <= MAX_INT64 && e <= p.lo && e < TWO63 - p.step && IsMultiple(p.lo - e, StrayStep(p))
    ensures forall w | 0 <= w < e :: !p.Strays(w)
  {
    NextStray(p, e);
  }

  lemma WrappedEnd(p: Part, out: Mask, m: Mask, v: int, e: int, phase: int)
    requires 0 <= p.lo <= p.hi < 64 && 1 <= p.step <= MAX_INT64 && p.lo + p.step >= TWO63
    requires Wrapped(p, out, m, v, e, phase) && v > p.hi
    ensures forall w | 0 <= w < 64 :: Bit(m, w) <==> Bit(out, w) || p.Hits(w)
  {
    forall w | 0 <= w < 64 && p.lo < w <= p.hi ensures !p.Denotes(w) {
    }
    assert p.Denotes(p.lo);
    hide IsMultiple;
  }

  /** The inner loop of parseField. The counter is an int64 and wraps: with a large enough step it
      comes back below lo, two additions later, and sets bits the element does not denote. */
  method FillRange(out: Mask, p: Part) returns (m: Mask)
    requires 0 <= p.lo <= p.hi < 64 && 1 <= p.step <= MAX_INT64
    ensures forall v | 0 <= v < 64 :: Bit(m, v) <==> Bit(out, v) || p.Hits(v)
  {
    m := out;
    var v := p.lo;
    ghost var wraps := p.lo + p.step >= TWO63;
    ghost var e, phase := p.lo, 1;
    assert if wraps then Wrapped(p, out, m, v, e, phase) else Straight(p, out, m, v);
    hide Wrapped, Straight, Bit;
    while v <= p.hi
      invariant if wraps then Wrapped(p, out, m, v, e, phase) else Straight(p, out, m, v)
      invariant wraps ==> -StrayStep(p) <= e
      decreases if wraps then e + StrayStep(p) else p.hi - v, phase
    {
      if wraps {
        e, phase := WrappedStep(p, out, m, v, e, phase);
      } else {
        StraightStep(p, out, m, v);
      }
      m := SetBit(m, v);
      v := Wrap64(v + p.step);
    }
    if wraps {
      WrappedEnd(p, out, m, v, e, phase);
    } else {
      StraightEnd(p, out, m, v);
    }
  }

  // ---------------------------------------------------------------- parseField, Parse

  ghost function Prepend(parts: seq<Part>, r: Result<seq<Part>, FieldError>): Result<seq<Part>, FieldError> {
    if r.Err? then r else Ok(parts + r.value)
  }

  lemma PrependNothing(elements: seq<string>, spec: FieldSpec)
    requires spec.Valid()
    ensures ParseParts(elements, spec) == Prepend([], ParseParts(elements[0..], spec))
  {
    assert elements[0..] == elements;
    var r := ParseParts(elements, spec);
    assert r.Ok? ==> [] + r.value == r.value;
  }

  lemma ParsePartsStep(elements: seq<string>, i: nat, spec: FieldSpec, parts: seq<Part>)
    requires i < |elements| && spec.Valid()
    requires ParseParts(elements, spec) == Prepend(parts, ParseParts(elements[i..], spec))
    ensures var part := ParsePart(elements[i], spec);
            if part.Err? then ParseParts(elements, spec) == Err(part.error)
            else ParseParts(elements, spec) == Prepend(parts + [part.value], ParseParts(elements[i + 1..], spec))
  {
    assert elements[i..][1..] == elements[i + 1..];
    var part, rest := ParsePart(elements[i], spec), ParseParts(elements[i + 1..], spec);
    if part.Ok? && rest.Ok? {
      assert parts + ([part.value] + rest.value) == parts + [part.value] + rest.value;
    }
  }

  lemma MaskOfSnoc(parts: seq<Part>, p: Part, m: Mask)
    requires forall i | 0 <= i < |parts| :: 1 <= parts[i].step <= MAX_INT64
    requires 1 <= p.step <= MAX_INT64
    requires forall v | 0 <= v < 64 :: Bit(m, v) <==> Bit(MaskOf(parts), v) || p.Hits(v)
    ensures m == MaskOf(parts + [p])
  {
    forall v | 0 <= v < 64 ensures m[v] == MaskOf(parts + [p])[v] {
      SomeHitsSnoc(parts, p, v);
      assert Bit(m, v) <==> Bit(MaskOf(parts), v) || p.Hits(v);
    }
  }

  method ParseField(field: string, spec: FieldSpec) returns (r: Result<Mask, FieldError>)
    requires spec.Valid()
    ensures r == FieldMask(field, spec)
  {
    var out: Mask := seq(64, _ => false);
    var elements := Split(field, ',');
    ghost var parts: seq<Part> := [];
    PrependNothing(elements, spec);
    assert out == MaskOf(parts);
    var i := 0;
    while i < |elements|
      invariant 0 <= i == |parts| <= |elements|
      invariant forall j | 0 <= j < i :: parts[j].InRange(spec)
      invariant ParseParts(elements, spec) == Prepend(parts, ParseParts(elements[i..], spec))
      invariant out == MaskOf(parts)
    {
      ParsePartsStep(elements, i, spec, parts);
      var part := ParsePart(elements[i], spec);
      if part.Err? {
        return Err(part.error);
      }
      out := FillRange(out, part.value);
      MaskOfSnoc(parts, part.value, out);
      parts := parts + [part.value];
      i := i + 1;
    }
    assert elements[i..] == [] && parts + [] == parts;
    assert ParseParts(elements, spec) == Ok(parts);
    if IsZero(out) {
      return Err(MatchesNothing);
    }
    return Ok(out);
  }

  lemma SomeHitsSnoc(parts: seq<Part>, p: Part, v: int)
    requires forall i | 0 <= i < |parts| :: 1 <= parts[i].step <= MAX_INT64
    requires 1 <= p.step <= MAX_INT64
    ensures SomeHits(parts + [p], v) <==> SomeHits(parts, v) || p.Hits(v)
  {
    var all := parts + [p];
    if p.Hits(v) {
      assert all[|parts|].Hits(v);
    }
    if SomeHits(parts, v) {
      var i :| 0 <= i < |parts| && parts[i].Hits(v);
      assert all[i].Hits(v);
    }
  }

  /** The five bitmasks of a parsed expression. */
  datatype Cron = Cron(minute: Mask, hour: Mask, dom: Mask, month: Mask, dow: Mask)

  datatype CronError = WrongFieldCount(count: nat) | BadField(number: nat, cause: FieldError)

  /** Combines five field results; the first error wins and fields are numbered from 1. */
  ghost function Combine(m: seq<Result<Mask, FieldError>>): Result<Cron, CronError>
    requires |m| == 5
  {
    if m[0].Err? then Err(BadField(1, m[0].error))
    else if m[1].Err? then Err(BadField(2, m[1].error))
    else if m[2].Err? then Err(BadField(3, m[2].error))
    else if m[3].Err? then Err(BadField(4, m[3].error))
    else if m[4].Err? then Err(BadField(5, m[4].error))
    else Ok(Cron(m[0].value, m[1].value, m[2].value, m[3].value, m[4].value))
  }

  /** What Parse returns. */
  ghost function ParseResult(expr: string): Result<Cron, CronError> {
    var f := Fields(TrimSpace(expr));
    if |f| != 5 then Err(WrongFieldCount(|f|))
    else Combine([FieldMask(f[0], MINUTES), FieldMask(f[1], HOURS), FieldMask(f[2], DAYS),
                  FieldMask(f[3], MONTHS), FieldMask(f[4], WEEKDAYS)])
  }

  ghost predicate Compiles(field: string, spec: FieldSpec, m: Mask) {
    spec.Valid() && FieldMask(field, spec) == Ok(m)
  }

  ghost predicate FieldFails(field: string, spec: FieldSpec, e: FieldError) {
    spec.Valid() && FieldMask(field, spec) == Err(e)
  }

  /** The loop of Parse: compiles the fields in order and stops at the first error. */
  method ParseFields(fields: seq<string>, specs: seq<FieldSpec>)
    returns (masks: seq<Mask>, failed: Option<FieldError>)
    requires |fields| == |specs| && forall i | 0 <= i < |specs| :: specs[i].Valid()
    ensures |masks| <= |fields| && forall j | 0 <= j < |masks| :: Compiles(fields[j], specs[j], masks[j])
    ensures failed.None? ==> |masks| == |fields|
    ensures failed.Some? ==> |masks| < |fields| && FieldFails(fields[|masks|], specs[|masks|], failed.value)
  {
    hide FieldMask;
    masks := [];
    while |masks| < |fields|
      invariant |masks| <= |fields| && forall j | 0 <= j < |masks| :: Compiles(fields[j], specs[j], masks[j])
    {
      var m := ParseField(fields[|masks|], specs[|masks|]);
      if m.Err? {
        failed := Some(m.error);
        return;
      }
      masks := masks + [m.value];
    }
    failed := None;
  }

  method Parse(expr: string) returns (r: Result<Cron, CronError>)
    ensures r == ParseResult(expr)
  {
    hide FieldMask;
    var fields := Fields(TrimSpace(expr));
    if |fields| != 5 {
      return Err(WrongFieldCount(|fields|));
    }
    var m, failed := ParseFields(fields, [MINUTES, HOURS, DAYS, MONTHS, WEEKDAYS]);
    if failed.Some? {
      return Err(BadField(|m| + 1, failed.value));
    }
    return Ok(Cron(m[0], m[1], m[2], m[3], m[4]));
  }

  // --------------------------------------------------------- what the masks denote

  /** An element sets exactly the bits it denotes if and only if lo + 2 * step does not reach 2^64. */
  lemma PartExact(p: Part)
    requires 0 <= p.lo <= p.hi < 64 && 1 <= p.step <= MAX_INT64
    ensures (forall v :: p.Hits(v) <==> p.Denotes(v)) <==> p.lo + 2 * p.step < 2 * TWO63
  {
    if p.lo + 2 * p.step < 2 * TWO63 {
      forall v ensures !p.Strays(v) {
      }
    } else {
      var v := p.lo - StrayStep(p);
      assert IsMultiple(p.lo - v, StrayStep(p));
      assert p.Strays(v) && p.Hits(v) && !p.Denotes(v);
    }
  }

  /** "5-10/9223372036854775807" is accepted as a day-of-month field and also selects days 1 and 3. */
  lemma HugeStepStrays()
    ensures var p := Part(5, 10, MAX_INT64); p.InRange(DAYS) && p.Strays(3) && p.Strays(1) && !p.Denotes(3)
  {
    assert IsMultiple(4, 2);
  }

  /** "4/9223372036854775806" as a day of the month even sets bit 0, outside the field's range. */
  lemma HugeStepLeavesRange()
    ensures var p := Part(4, 4, MAX_INT64 - 1); p.InRange(DAYS) && p.Hits(0) && 0 < DAYS.min
  {
  }

  ghost predicate SomeDenotes(parts: seq<Part>, v: int)
    requires forall i | 0 <= i < |parts| :: 1 <= parts[i].step
  {
    exists i | 0 <= i < |parts| :: parts[i].Denotes(v)
  }

  /** Whatever one element strays to, some element denotes. */
  ghost predicate StraysDenoted(parts: seq<Part>)
    requires forall i | 0 <= i < |parts| :: 1 <= parts[i].step <= MAX_INT64
  {
    forall i, v | 0 <= i < |parts| && parts[i].Strays(v) :: SomeDenotes(parts, v)
  }

  predicate NoHugeStep(parts: seq<Part>) {
    forall i | 0 <= i < |parts| :: parts[i].lo + 2 * parts[i].step < 2 * TWO63
  }

  lemma HitsOrStrays(parts: seq<Part>, v: int)
    requires forall i | 0 <= i < |parts| :: 1 <= parts[i].step <= MAX_INT64
    ensures SomeHits(parts, v) <==> SomeDenotes(parts, v) || exists i | 0 <= i < |parts| :: parts[i].Strays(v)
  {
    forall i | 0 <= i < |parts| ensures parts[i].Hits(v) <==> parts[i].Denotes(v) || parts[i].Strays(v) {
    }
  }

  /** A successful parse: a bit is set exactly when some list element hits it, and at least one denoted bit is set. The
      set bits are exactly the denoted values, all in range, if and only if every stray value is denoted by some
      element, as it is without huge steps. */
  lemma FieldMaskMeaning(field: string, spec: FieldSpec)
    requires spec.Valid()
    ensures var parts := ParseParts(Split(field, ','), spec);
            && (FieldMask(field, spec).Ok? <==> parts.Ok?)
            && (parts.Ok? ==>
                  var mask := FieldMask(field, spec).value;
                  && (forall v :: Bit(mask, v) <==> SomeHits(parts.value, v))
                  && (forall v :: SomeDenotes(parts.value, v) ==> Bit(mask, v) && spec.min <= v <= spec.max)
                  && SomeDenotes(parts.value, parts.value[0].lo)
                  && ((forall v :: Bit(mask, v) <==> SomeDenotes(parts.value, v)) <==> StraysDenoted(parts.value))
                  && (NoHugeStep(parts.value) ==> forall v :: Bit(mask, v) <==> SomeDenotes(parts.value, v)))
  {
    var parsed := ParseParts(Split(field, ','), spec);
    if parsed.Ok? {
      var parts := parsed.value;
      assert parts[0].Denotes(parts[0].lo) && parts[0].Hits(parts[0].lo);
      assert SomeHits(parts, parts[0].lo);
      assert Bit(MaskOf(parts), parts[0].lo);
      forall v ensures Bit(MaskOf(parts), v) <==> SomeHits(parts, v) {
      }
      forall v | SomeDenotes(parts, v) ensures SomeHits(parts, v) && spec.min <= v <= spec.max {
        var i :| 0 <= i < |parts| && parts[i].Denotes(v);
        assert parts[i].Hits(v);
      }
      forall v
        ensures SomeHits(parts, v) <==> SomeDenotes(parts, v) || exists i | 0 <= i < |parts| :: parts[i].Strays(v)
      {
        HitsOrStrays(parts, v);
      }
      if NoHugeStep(parts) {
        forall v | SomeHits(parts, v) ensures SomeDenotes(parts, v) {
          var i :| 0 <= i < |parts| && parts[i].Hits(v);
          PartExact(parts[i]);
          assert parts[i].Denotes(v);
        }
      }
    }
  }
}
