/** The documented cron syntax (cron.go:11-24) as abstract syntax with a printer, and the proof that
    parsing a printed expression gives the masks its abstract syntax denotes. */
module CronSyntax {
  import opened Int64
  import opened Wrappers
  import opened Text
  import opened CronParse

  datatype Range = Any | Value(n: nat) | Between(a: nat, b: nat)

  datatype Element = Element(range: Range, step: Option<nat>)
  {
    predicate Writable() {
      && (range.Value? ==> range.n <= MAX_INT64)
      && (range.Between? ==> range.a <= MAX_INT64 && range.b <= MAX_INT64)
      && (step.Some? ==> 1 <= step.value <= MAX_INT64)
    }

    /** lo, hi and step of the element; a lone value with a step still stands for that value only. */
    function Meaning(spec: FieldSpec): Part {
      var s := if step.Some? then step.value else 1;
      match range
      case Any => Part(spec.min, spec.max, s)
      case Value(n) => Part(n, n, s)
      case Between(a, b) => Part(a, b, s)
    }
  }

  predicate Plain(c: char) { IsDigit(c) || c == '*' || c == '-' || c == '/' }

  predicate AllPlain(s: string) { forall i | 0 <= i < |s| :: Plain(s[i]) }

  function PrintRange(r: Range): (s: string)
    ensures 0 < |s| && AllPlain(s) && forall i | 0 <= i < |s| :: s[i] != '/'
  {
    match r
    case Any => "*"
    case Value(n) => Itoa(n)
    case Between(a, b) => Itoa(a) + "-" + Itoa(b)
  }

  function PrintElement(e: Element): (s: string)
    ensures 0 < |s| && AllPlain(s)
  {
    if e.step.None? then PrintRange(e.range) else PrintRange(e.range) + "/" + Itoa(e.step.value)
  }

  function PrintElements(es: seq<Element>): (parts: seq<string>)
    ensures |parts| == |es|
    ensures forall i | 0 <= i < |es| :: parts[i] == PrintElement(es[i])
  {
    hide PrintElement;
    if es == [] then [] else [PrintElement(es[0])] + PrintElements(es[1..])
  }

  function PrintField(es: seq<Element>): string
    requires 0 < |es|
  {
    Join(PrintElements(es), ',')
  }

  // ------------------------------------------------------------------ one element

  lemma PlainNotTrimmed(s: string)
    requires 0 < |s| && AllPlain(s)
    ensures TrimSpace(s) == s
  {
    assert Plain(s[0]) && Plain(s[|s| - 1]);
  }

  lemma BoundsOfBetween(a: nat, b: nat, step: int, spec: FieldSpec)
    requires a <= MAX_INT64 && b <= MAX_INT64
    ensures ParseBounds(Itoa(a) + "-" + Itoa(b), step, spec) == Checked(Part(a, b, step), spec)
  {
    var s := Itoa(a) + "-" + Itoa(b);
    var n := |Itoa(a)|;
    assert forall i | 0 <= i < n :: s[i] == Itoa(a)[i] && IsDigit(Itoa(a)[i]);
    IndexOfAt(s, '-', n);
    assert s[..n] == Itoa(a) && s[n + 1..] == Itoa(b);
    AtoiOfItoa(a);
    AtoiOfItoa(b);
    assert IsDigit(s[0]);
  }

  lemma BoundsOfValue(n: nat, step: int, spec: FieldSpec)
    requires n <= MAX_INT64
    ensures ParseBounds(Itoa(n), step, spec) == Checked(Part(n, n, step), spec)
  {
    var s := Itoa(n);
    assert IsDigit(s[0]);
    assert forall i | 0 <= i < |s| :: IsDigit(s[i]);
    AtoiOfItoa(n);
  }

  lemma BoundsOfRange(r: Range, step: int, spec: FieldSpec)
    requires Element(r, None).Writable()
    ensures ParseBounds(PrintRange(r), step, spec) == Checked(Element(r, None).Meaning(spec).(step := step), spec)
  {
    match r
    case Any =>
    case Value(n) => BoundsOfValue(n, step, spec);
    case Between(a, b) => BoundsOfBetween(a, b, step, spec);
  }

  lemma ParsePrintedElement(e: Element, spec: FieldSpec)
    requires e.Writable() && spec.Valid()
    ensures ParsePart(PrintElement(e), spec) == Checked(e.Meaning(spec), spec)
  {
    var s, range := PrintElement(e), PrintRange(e.range);
    PlainNotTrimmed(s);
    BoundsOfRange(e.range, if e.step.Some? then e.step.value else 1, spec);
    if e.step.Some? {
      var n := |range|;
      assert forall i | 0 <= i < n :: s[i] == range[i];
      IndexOfAt(s, '/', n);
      assert s[..n] == range && s[n + 1..] == Itoa(e.step.value);
      AtoiOfItoa(e.step.value);
      BoundsOfBetween(spec.min, spec.max, e.step.value, spec);
      assert range == "*" <==> e.range.Any? by {
        assert !e.range.Any? ==> IsDigit(range[0]);
      }
    }
  }

  // --------------------------------------------------------------- a whole field

  predicate AcceptableField(es: seq<Element>, spec: FieldSpec) {
    0 < |es| && forall i | 0 <= i < |es| :: es[i].Writable() && es[i].Meaning(spec).InRange(spec)
  }

  function Meanings(es: seq<Element>, spec: FieldSpec): (parts: seq<Part>)
    ensures |parts| == |es| && forall i | 0 <= i < |es| :: parts[i] == es[i].Meaning(spec)
  {
    if es == [] then [] else [es[0].Meaning(spec)] + Meanings(es[1..], spec)
  }

  lemma {:induction false} ParsePrintedElements(es: seq<Element>, spec: FieldSpec)
    requires spec.Valid() && forall i | 0 <= i < |es| :: es[i].Writable() && es[i].Meaning(spec).InRange(spec)
    ensures ParseParts(PrintElements(es), spec) == Ok(Meanings(es, spec))
  {
    if es != [] {
      ParsePrintedElement(es[0], spec);
      ParsePrintedElements(es[1..], spec);
      assert PrintElements(es)[1..] == PrintElements(es[1..]);
    }
  }

  lemma ParsePrintedField(es: seq<Element>, spec: FieldSpec)
    requires spec.Valid() && AcceptableField(es, spec)
    ensures ParseParts(Split(PrintField(es), ','), spec) == Ok(Meanings(es, spec))
  {
    var parts := PrintElements(es);
    forall i | 0 <= i < |parts| ensures ',' !in parts[i] {
      assert AllPlain(PrintElement(es[i]));
    }
    SplitOfJoin(parts, ',');
    ParsePrintedElements(es, spec);
  }

  /** The mask has exactly the bits the elements denote. */
  ghost predicate Selects(mask: Mask, es: seq<Element>, spec: FieldSpec)
    requires AcceptableField(es, spec)
  {
    forall v :: Bit(mask, v) <==> SomeDenotes(Meanings(es, spec), v)
  }

  /** Printing a field and parsing it selects exactly the values its elements denote,
      provided no element's step is so large that the counting loop overflows. */
  lemma FieldRoundTrip(es: seq<Element>, spec: FieldSpec)
    requires spec.Valid() && AcceptableField(es, spec) && NoHugeStep(Meanings(es, spec))
    ensures var r := FieldMask(PrintField(es), spec); r.Ok? && Selects(r.value, es, spec)
  {
    ParsePrintedField(es, spec);
    FieldMaskMeaning(PrintField(es), spec);
  }

  // ---------------------------------------------------------- a whole expression

  datatype Expression = Expression(minute: seq<Element>, hour: seq<Element>, dom: seq<Element>,
                                   month: seq<Element>, dow: seq<Element>)
  {
    predicate Acceptable() {
      && AcceptableField(minute, MINUTES) && AcceptableField(hour, HOURS)
      && AcceptableField(dom, DAYS) && AcceptableField(month, MONTHS)
      && AcceptableField(dow, WEEKDAYS)
    }

    function Print(): string
      requires Acceptable()
    {
      Join([PrintField(minute), PrintField(hour), PrintField(dom), PrintField(month), PrintField(dow)], ' ')
    }
  }

  lemma {:induction false} JoinIsWord(parts: seq<string>)
    requires 0 < |parts| && forall i | 0 <= i < |parts| :: 0 < |parts[i]| && AllPlain(parts[i])
    ensures Join(parts, ',') != [] && NoSpace(Join(parts, ','))
  {
    if |parts| > 1 {
      JoinIsWord(parts[1..]);
    }
  }

  lemma PrintedFieldIsWord(es: seq<Element>)
    requires 0 < |es|
    ensures PrintField(es) != [] && NoSpace(PrintField(es))
  {
    JoinIsWord(PrintElements(es));
  }

  lemma FieldsOfPrint(e: Expression)
    requires e.Acceptable()
    ensures Fields(TrimSpace(e.Print())) ==
            [PrintField(e.minute), PrintField(e.hour), PrintField(e.dom), PrintField(e.month), PrintField(e.dow)]
  {
    var words := [PrintField(e.minute), PrintField(e.hour), PrintField(e.dom), PrintField(e.month), PrintField(e.dow)];
    PrintedFieldIsWord(e.minute);
    PrintedFieldIsWord(e.hour);
    PrintedFieldIsWord(e.dom);
    PrintedFieldIsWord(e.month);
    PrintedFieldIsWord(e.dow);
    JoinEnds(words);
    FieldsOfJoin(words);
  }

  /** Parse(Print(e)) succeeds and every mask selects what its field of e denotes. */
  lemma ExpressionRoundTrip(e: Expression)
    requires e.Acceptable()
    requires NoHugeStep(Meanings(e.minute, MINUTES)) && NoHugeStep(Meanings(e.hour, HOURS))
    requires NoHugeStep(Meanings(e.dom, DAYS)) && NoHugeStep(Meanings(e.month, MONTHS))
    requires NoHugeStep(Meanings(e.dow, WEEKDAYS))
    ensures var r := ParseResult(e.Print());
            && r.Ok?
            && Selects(r.value.minute, e.minute, MINUTES) && Selects(r.value.hour, e.hour, HOURS)
            && Selects(r.value.dom, e.dom, DAYS) && Selects(r.value.month, e.month, MONTHS)
            && Selects(r.value.dow, e.dow, WEEKDAYS)
  {
    hide FieldMask, Selects, PrintField, Meanings, NoHugeStep, Fields, TrimSpace, AcceptableField;
    FieldsOfPrint(e);
    FieldRoundTrip(e.minute, MINUTES);
    FieldRoundTrip(e.hour, HOURS);
    FieldRoundTrip(e.dom, DAYS);
    FieldRoundTrip(e.month, MONTHS);
    FieldRoundTrip(e.dow, WEEKDAYS);
  }
}
