/** backend/internal/scheduler/cron.go:66-119: which texts the field parser accepts, and as what, without
    parsing. */
module CronGrammar {
  import opened Wrappers
  import opened Text
  import opened CronParse
  import CronSyntax
  import TextWords

  /** The text before the step reads as the values from lo to hi. */
  ghost predicate Reads(base: string, spec: FieldSpec, lo: int, hi: int) {
    || (base == "*" && lo == spec.min && hi == spec.max)
    || (base != "*" && exists a, b :: IsRange(base, a, b) && Atoi(a) == Some(lo) && Atoi(b) == Some(hi))
    || (base != "*" && '-' !in base && Atoi(base) == Some(lo) && lo == hi)
  }

  /** The first dash separates the ends of a range. */
  ghost predicate IsRange(base: string, a: string, b: string) { base == a + "-" + b && '-' !in a }

  /** The first slash separates a base from a positive step. */
  ghost predicate IsStepped(s: string, base: string, step: string) { s == base + "/" + step && '/' !in base }

  /** One list element stands for p. */
  ghost predicate IsElement(element: string, spec: FieldSpec, p: Part) {
    var s := TrimSpace(element);
    && s != "" && spec.min <= p.lo <= p.hi <= spec.max
    && (('/' !in s && p.step == 1 && Reads(s, spec, p.lo, p.hi))
        || exists base, step :: IsStepped(s, base, step) && Atoi(step) == Some(p.step) && 0 < p.step
                                && Reads(if base == "" then "*" else base, spec, p.lo, p.hi))
  }

  lemma BoundsIff(s: string, step: int, spec: FieldSpec, p: Part)
    ensures ParseBounds(s, step, spec) == Ok(p) <==>
            p.step == step && spec.min <= p.lo <= p.hi <= spec.max && Reads(s, spec, p.lo, p.hi)
  {
    hide Atoi;
    if s != "*" {
      if IndexOf(s, '-') < |s| {
        SplitBack(s, '-');
        var a0, b0 := s[..IndexOf(s, '-')], s[IndexOf(s, '-') + 1..];
        assert IsRange(s, a0, b0);
        forall a, b | IsRange(s, a, b) ensures a == a0 && b == b0 {
          SplitAt(s, '-', a, b);
        }
      } else {
        NoSplit(s, '-');
        forall a, b ensures !IsRange(s, a, b) {
          if IsRange(s, a, b) {
            SplitAt(s, '-', a, b);
          }
        }
      }
    }
  }

  lemma StarBounds(step: int, spec: FieldSpec)
    requires spec.Valid()
    ensures ParseBounds(Itoa(spec.min) + "-" + Itoa(spec.max), step, spec) == ParseBounds("*", step, spec)
  {
    CronSyntax.BoundsOfBetween(spec.min, spec.max, step, spec);
  }

  lemma SteppedIs(s: string, base: string, step: string)
    requires IsStepped(s, base, step)
    ensures IndexOf(s, '/') == |base| < |s| && s[..|base|] == base && s[|base| + 1..] == step
  {
    SplitAt(s, '/', base, step);
  }

  lemma SteppedBack(s: string)
    requires IndexOf(s, '/') < |s|
    ensures var i := IndexOf(s, '/'); IsStepped(s, s[..i], s[i + 1..]) && '/' in s
  {
    SplitBack(s, '/');
  }

  /** The text of a base as the parser sees it after the step is cut off. */
  lemma BaseBounds(base: string, step: int, spec: FieldSpec, p: Part)
    requires spec.Valid()
    ensures ParseBounds(if base == "" || base == "*" then Itoa(spec.min) + "-" + Itoa(spec.max) else base, step, spec)
            == Ok(p)
            <==> p.step == step && spec.min <= p.lo <= p.hi <= spec.max
                 && Reads(if base == "" then "*" else base, spec, p.lo, p.hi)
  {
    hide ParseBounds, Reads, Atoi, Itoa;
    StarBounds(step, spec);
    BoundsIff(if base == "" then "*" else base, step, spec, p);
  }

  lemma StepKept(s: string, step: int, spec: FieldSpec)
    ensures ParseBounds(s, step, spec).Ok? ==> ParseBounds(s, step, spec).value.step == step
  {
    hide Atoi;
  }

  /** What ParsePart does with the step it has cut off. */
  lemma SteppedElement(element: string, spec: FieldSpec, p: Part)
    requires spec.Valid() && TrimSpace(element) != "" && IndexOf(TrimSpace(element), '/') < |TrimSpace(element)|
    ensures var s := TrimSpace(element); var i := IndexOf(s, '/');
            ParsePart(element, spec) == Ok(p) <==>
            && Atoi(s[i + 1..]) == Some(p.step) && 0 < p.step
            && ParseBounds(if s[..i] == "" || s[..i] == "*" then Itoa(spec.min) + "-" + Itoa(spec.max) else s[..i],
                           p.step, spec) == Ok(p)
  {
    hide Atoi, Itoa, ParseBounds, TrimSpace;
    var s := TrimSpace(element);
    var i := IndexOf(s, '/');
    var step := Atoi(s[i + 1..]);
    if step.Some? {
      StepKept(if s[..i] == "" || s[..i] == "*" then Itoa(spec.min) + "-" + Itoa(spec.max) else s[..i],
               step.value, spec);
    }
  }

  lemma SteppedUnique(s: string, base: string, step: string, base0: string, step0: string)
    requires IsStepped(s, base, step) && IsStepped(s, base0, step0)
    ensures base == base0 && step == step0
  {
    SteppedIs(s, base, step);
    SteppedIs(s, base0, step0);
  }

  lemma SteppedIff(s: string, base0: string, step0: string, spec: FieldSpec, p: Part)
    requires IsStepped(s, base0, step0)
    ensures (exists base, step :: IsStepped(s, base, step) && Atoi(step) == Some(p.step) && 0 < p.step
                                  && Reads(if base == "" then "*" else base, spec, p.lo, p.hi))
            <==> Atoi(step0) == Some(p.step) && 0 < p.step
                 && Reads(if base0 == "" then "*" else base0, spec, p.lo, p.hi)
  {
    hide Reads, Atoi, IsStepped;
    forall base, step | IsStepped(s, base, step) ensures base == base0 && step == step0 {
      SteppedUnique(s, base, step, base0, step0);
    }
  }

  /** Without a step: the parser and the grammar read the whole element. */
  lemma UnsteppedIff(element: string, spec: FieldSpec, p: Part)
    requires spec.Valid() && TrimSpace(element) != "" && IndexOf(TrimSpace(element), '/') == |TrimSpace(element)|
    ensures ParsePart(element, spec) == Ok(p) <==> IsElement(element, spec, p)
  {
    hide ParseBounds, Reads, Atoi, IsStepped, Itoa, TrimSpace;
    var s := TrimSpace(element);
    NoSplit(s, '/');
    BoundsIff(s, 1, spec, p);
    forall base, step ensures !IsStepped(s, base, step) {
      if IsStepped(s, base, step) {
        SteppedIs(s, base, step);
      }
    }
  }

  /** The parser accepts an element, as p, if and only if the element stands for p. */
  lemma ElementIff(element: string, spec: FieldSpec, p: Part)
    requires spec.Valid()
    ensures ParsePart(element, spec) == Ok(p) <==> IsElement(element, spec, p)
  {
    hide ParseBounds, Reads, Atoi, IsStepped, Itoa, TrimSpace;
    var s := TrimSpace(element);
    if s != "" {
      if IndexOf(s, '/') == |s| {
        UnsteppedIff(element, spec, p);
      } else {
        SteppedElement(element, spec, p);
        SteppedBack(s);
        var i := IndexOf(s, '/');
        BaseBounds(s[..i], p.step, spec, p);
        SteppedIff(s, s[..i], s[i + 1..], spec, p);
      }
    }
  }

  ghost predicate Standable(element: string, spec: FieldSpec) { exists p :: IsElement(element, spec, p) }

  /** A field compiles if and only if each of its comma-separated elements stands for something. */
  lemma FieldAcceptedIff(field: string, spec: FieldSpec)
    requires spec.Valid()
    ensures FieldMask(field, spec).Ok?
            <==> forall i | 0 <= i < |Split(field, ',')| :: Standable(Split(field, ',')[i], spec)
  {
    hide IsElement, Split, ParsePart;
    FieldMaskMeaning(field, spec);
    AllParse(Split(field, ','), spec);
  }

  lemma {:induction false} AllParse(elements: seq<string>, spec: FieldSpec)
    requires spec.Valid()
    ensures ParseParts(elements, spec).Ok? <==> forall i | 0 <= i < |elements| :: Standable(elements[i], spec)
    ensures ParseParts(elements, spec).Ok? ==>
              forall i | 0 <= i < |elements| :: IsElement(elements[i], spec, ParseParts(elements, spec).value[i])
  {
    hide IsElement, ParsePart;
    if elements != [] {
      AllParse(elements[1..], spec);
      HeadParses(elements[0], spec);
      assert forall i | 0 <= i < |elements| - 1 :: elements[1..][i] == elements[i + 1];
    }
  }

  lemma HeadParses(element: string, spec: FieldSpec)
    requires spec.Valid()
    ensures ParsePart(element, spec).Ok? <==> Standable(element, spec)
    ensures ParsePart(element, spec).Ok? ==> IsElement(element, spec, ParsePart(element, spec).value)
  {
    hide IsElement, ParsePart;
    forall p ensures ParsePart(element, spec) == Ok(p) <==> IsElement(element, spec, p) {
      ElementIff(element, spec, p);
    }
  }

  // --------------------------------------------------------------- whole expressions

  /** Each comma-separated element of the field stands for something between min and max. */
  ghost predicate IsField(field: string, min: int, max: int) {
    exists elements ::
      && elements != [] && Join(elements, ',') == field
      && forall i | 0 <= i < |elements| :: ',' !in elements[i] && Standable(elements[i], FieldSpec(min, max))
  }

  lemma IsFieldIff(field: string, spec: FieldSpec)
    requires spec.Valid()
    ensures FieldMask(field, spec).Ok? <==> IsField(field, spec.min, spec.max)
  {
    hide FieldMask, Split, Join, Standable;
    FieldAcceptedIff(field, spec);
    TextWords.JoinOfSplit(field, ',');
    if IsField(field, spec.min, spec.max) {
      var elements :| elements != [] && Join(elements, ',') == field
                      && forall i | 0 <= i < |elements| ::
                           ',' !in elements[i] && Standable(elements[i], FieldSpec(spec.min, spec.max));
      TextWords.SplitIff(field, ',', elements);
    }
  }

  /** An expression is accepted if and only if it consists of five words, with white space anywhere between and around
      them, that are fields for minute, hour, day of the month, month and day of the week. */
  lemma ExpressionAcceptedIff(expr: string)
    ensures ParseResult(expr).Ok?
            <==> exists f :: TextWords.AreWords(expr, f) && |f| == 5 && IsField(f[0], 0, 59) && IsField(f[1], 0, 23)
                             && IsField(f[2], 1, 31) && IsField(f[3], 1, 12) && IsField(f[4], 0, 6)
  {
    hide FieldMask, IsField, TextWords.AreWords, Fields, TrimSpace;
    TextWords.FieldsOfTrim(expr);
    var f := Fields(expr);
    forall words ensures TextWords.AreWords(expr, words) <==> words == f {
      TextWords.FieldsIff(expr, words);
    }
    if |f| == 5 {
      IsFieldIff(f[0], MINUTES);
      IsFieldIff(f[1], HOURS);
      IsFieldIff(f[2], DAYS);
      IsFieldIff(f[3], MONTHS);
      IsFieldIff(f[4], WEEKDAYS);
    }
  }

  /** The error counts the words when they are not five, and otherwise names the first word that is not a field. */
  lemma ExpressionErrorIff(expr: string, f: seq<string>, i: nat)
    requires TextWords.AreWords(expr, f)
    ensures ParseResult(expr) == Err(WrongFieldCount(i)) <==> |f| == i != 5
    ensures (exists e :: ParseResult(expr) == Err(BadField(i, e)))
            <==> && |f| == 5 && 1 <= i <= 5 && !IsNthField(f, i) && forall j | 1 <= j < i :: IsNthField(f, j)
  {
    hide FieldMask, IsField, TextWords.AreWords, Fields, TrimSpace;
    TextWords.FieldsOfTrim(expr);
    TextWords.FieldsIff(expr, f);
    if |f| == 5 {
      IsFieldIff(f[0], MINUTES);
      IsFieldIff(f[1], HOURS);
      IsFieldIff(f[2], DAYS);
      IsFieldIff(f[3], MONTHS);
      IsFieldIff(f[4], WEEKDAYS);
      assert IsNthField(f, 1) == IsField(f[0], 0, 59) && IsNthField(f, 2) == IsField(f[1], 0, 23);
      assert IsNthField(f, 3) == IsField(f[2], 1, 31) && IsNthField(f, 4) == IsField(f[3], 1, 12);
      assert IsNthField(f, 5) == IsField(f[4], 0, 6);
      FirstBadField(expr, f, i);
    }
  }

  lemma FirstBadField(expr: string, f: seq<string>, i: nat)
    requires f == Fields(TrimSpace(expr)) && |f| == 5
    requires FieldMask(f[0], MINUTES).Ok? == IsNthField(f, 1) && FieldMask(f[1], HOURS).Ok? == IsNthField(f, 2)
    requires FieldMask(f[2], DAYS).Ok? == IsNthField(f, 3) && FieldMask(f[3], MONTHS).Ok? == IsNthField(f, 4)
    requires FieldMask(f[4], WEEKDAYS).Ok? == IsNthField(f, 5)
    ensures (exists e :: ParseResult(expr) == Err(BadField(i, e)))
            <==> 1 <= i <= 5 && !IsNthField(f, i) && forall j | 1 <= j < i :: IsNthField(f, j)
  {
    hide FieldMask, IsNthField, Fields, TrimSpace;
    var r := ParseResult(expr);
    if r.Err? {
      assert r.error.BadField? && r == Err(BadField(r.error.number, r.error.cause));
    }
  }

  ghost predicate IsNthField(f: seq<string>, n: int)
    requires |f| == 5 && 1 <= n <= 5
  {
    if n == 1 then IsField(f[0], 0, 59)
    else if n == 2 then IsField(f[1], 0, 23)
    else if n == 3 then IsField(f[2], 1, 31)
    else if n == 4 then IsField(f[3], 1, 12)
    else IsField(f[4], 0, 6)
  }
}
