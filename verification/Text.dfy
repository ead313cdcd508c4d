/** The parts of Go's `strings` and `strconv` packages that the cron parser calls,
    on sequences of characters, with the round trips the parser relies on. */
module Text {
  import opened Int64
  import opened Wrappers

  // ---------------------------------------------------------------- characters

  predicate IsDigit(c: char) { '0' <= c <= '9' }

  /** Go's unicode.IsSpace. */
  predicate IsSpace(c: char) {
    || c == '\t' || c == '\n' || c == '\U{b}' || c == '\U{c}' || c == '\r' || c == ' '
    || c == '\U{85}' || c == '\U{a0}' || c == '\U{1680}' || ('\U{2000}' <= c <= '\U{200a}')
    || c == '\U{2028}' || c == '\U{2029}' || c == '\U{202f}' || c == '\U{205f}' || c == '\U{3000}'
  }

  predicate NoSpace(s: string) { forall i | 0 <= i < |s| :: !IsSpace(s[i]) }

  predicate AllDigits(s: string) { forall i | 0 <= i < |s| :: IsDigit(s[i]) }

  // ------------------------------------------------------------------- numbers

  function DigitChar(d: nat): (c: char)
    requires d < 10
    ensures IsDigit(c)
  {
    ("0123456789")[d]
  }

  function DigitValue(c: char): (d: nat)
    requires IsDigit(c)
    ensures d < 10
  {
    (c as int) - ('0' as int)
  }

  function Itoa(n: nat): (s: string)
    ensures 0 < |s| && AllDigits(s)
  {
    if n < 10 then [DigitChar(n)] else Itoa(n / 10) + [DigitChar(n % 10)]
  }

  function DigitsValue(s: string): nat
    requires AllDigits(s)
  {
    if s == [] then 0 else 10 * DigitsValue(s[..|s| - 1]) + DigitValue(s[|s| - 1])
  }

  /** strconv.Atoi: an optional sign, one or more digits, and a 64-bit result. */
  function Atoi(s: string): (r: Option<int>)
    ensures r.Some? ==> MIN_INT64 <= r.value <= MAX_INT64
  {
    var signed := s != [] && (s[0] == '+' || s[0] == '-');
    var digits := if signed then s[1..] else s;
    if digits == [] || !AllDigits(digits) then None
    else
      var magnitude: int := DigitsValue(digits);
      var n := if signed && s[0] == '-' then 0 - magnitude else magnitude;
      if MIN_INT64 <= n <= MAX_INT64 then Some(n) else None
  }

  /** s is a sign, or none, followed by digits whose value, so signed, is n. */
  ghost predicate Numeral(s: string, n: int) {
    exists sign, digits ::
      IsNumeral(s, sign, digits) && n == (if sign == "-" then 0 - DigitsValue(digits) else DigitsValue(digits))
  }

  ghost predicate IsNumeral(s: string, sign: string, digits: string) {
    s == sign + digits && (sign == "" || sign == "+" || sign == "-") && digits != [] && AllDigits(digits)
  }

  /** Exactly the numerals of 64-bit numbers are read, and as these numbers. */
  lemma AtoiIff(s: string, n: int)
    ensures Atoi(s) == Some(n) <==> Numeral(s, n) && MIN_INT64 <= n <= MAX_INT64
  {
    hide DigitsValue;
    var signed := s != [] && (s[0] == '+' || s[0] == '-');
    var sign0, digits0 := if signed then s[..1] else "", if signed then s[1..] else s;
    assert s == sign0 + digits0;
    forall sign, digits | IsNumeral(s, sign, digits) ensures sign == sign0 && digits == digits0 {
      SignUnique(s, sign, digits);
    }
    if digits0 != [] && AllDigits(digits0) {
      assert IsNumeral(s, sign0, digits0);
      assert sign0 == "-" <==> signed && s[0] == '-';
    }
  }

  lemma SignUnique(s: string, sign: string, digits: string)
    requires IsNumeral(s, sign, digits)
    ensures (s[0] == '+' || s[0] == '-') <==> sign != ""
    ensures sign != "" ==> sign == s[..1] && digits == s[1..]
    ensures sign == "" ==> digits == s
  {
    if sign == "" {
      assert s == digits && IsDigit(digits[0]);
    } else {
      assert |sign| == 1 && s[0] == sign[0];
    }
  }

  lemma {:induction false} DigitsOfItoa(n: nat)
    ensures DigitsValue(Itoa(n)) == n
  {
    if n < 10 {
      assert Itoa(n)[..0] == [];
      assert DigitValue(DigitChar(n)) == n;
    } else {
      DigitsOfItoa(n / 10);
      var s := Itoa(n);
      assert s[..|s| - 1] == Itoa(n / 10);
      assert DigitValue(DigitChar(n % 10)) == n % 10;
    }
  }

  /** Printing a number and reading it back gives the number. */
  lemma AtoiOfItoa(n: nat)
    requires n <= MAX_INT64
    ensures Atoi(Itoa(n)) == Some(n)
  {
    DigitsOfItoa(n);
    assert IsDigit(Itoa(n)[0]);
  }

  lemma ItoaInjective(a: nat, b: nat)
    requires Itoa(a) == Itoa(b)
    ensures a == b
  {
    DigitsOfItoa(a);
    DigitsOfItoa(b);
  }

  // ----------------------------------------------------------- searching, splitting

  /** strings.Index for a one-character needle; |s| stands for "absent". */
  function IndexOf(s: string, c: char): (i: nat)
    ensures i <= |s|
    ensures forall j | 0 <= j < i :: s[j] != c
    ensures i < |s| ==> s[i] == c
  {
    if s == [] || s[0] == c then 0 else 1 + IndexOf(s[1..], c)
  }

  /** strings.Split with a one-character separator: always at least one part. */
  function Split(s: string, sep: char): (parts: seq<string>)
    ensures 0 < |parts|
    decreases |s|
  {
    var i := IndexOf(s, sep);
    if i == |s| then [s] else [s[..i]] + Split(s[i + 1..], sep)
  }

  function Join(parts: seq<string>, sep: char): string
    requires 0 < |parts|
  {
    if |parts| == 1 then parts[0] else parts[0] + [sep] + Join(parts[1..], sep)
  }

  lemma {:induction false} IndexOfAt(s: string, c: char, i: nat)
    requires i < |s| && s[i] == c && forall j | 0 <= j < i :: s[j] != c
    ensures IndexOf(s, c) == i
  {
    if i > 0 {
      IndexOfAt(s[1..], c, i - 1);
    }
  }

  lemma SplitAt(s: string, c: char, a: string, b: string)
    requires s == a + [c] + b && c !in a
    ensures IndexOf(s, c) == |a| < |s| && s[..|a|] == a && s[|a| + 1..] == b
  {
    hide IndexOf;
    assert forall i | 0 <= i < |a| :: s[i] == a[i];
    IndexOfAt(s, c, |a|);
  }

  lemma SplitBack(s: string, c: char)
    requires IndexOf(s, c) < |s|
    ensures var i := IndexOf(s, c); s == s[..i] + [c] + s[i + 1..] && c !in s[..i] && c in s
  {
    hide IndexOf;
  }

  lemma NoSplit(s: string, c: char)
    ensures IndexOf(s, c) == |s| <==> c !in s
  {
    hide IndexOf;
    if IndexOf(s, c) < |s| {
      assert s[IndexOf(s, c)] == c;
    }
  }

  lemma SplitMore(s: string, c: char, a: string, b: string)
    requires s == a + [c] + b && c !in a
    ensures Split(s, c) == [a] + Split(b, c)
  {
    hide IndexOf;
    SplitAt(s, c, a, b);
  }

  lemma SplitNone(s: string, c: char)
    requires c !in s
    ensures Split(s, c) == [s]
  {
    NoSplit(s, c);
  }

  lemma JoinMore(parts: seq<string>, sep: char)
    requires 1 < |parts|
    ensures Join(parts, sep) == parts[0] + [sep] + Join(parts[1..], sep)
  {
  }

  lemma {:induction false} SplitOfJoin(parts: seq<string>, sep: char)
    requires 0 < |parts|
    requires forall i | 0 <= i < |parts| :: sep !in parts[i]
    ensures Split(Join(parts, sep), sep) == parts
  {
    if |parts| == 1 {
      SplitNone(parts[0], sep);
    } else {
      hide Split, Join;
      var rest := parts[1..];
      SplitOfJoin(rest, sep);
      JoinMore(parts, sep);
      assert sep !in parts[0];
      SplitMore(Join(parts, sep), sep, parts[0], Join(rest, sep));
      assert parts == [parts[0]] + rest;
    }
  }

  // ----------------------------------------------------------------- white space

  /** strings.TrimSpace */
  function TrimSpace(s: string): string
    decreases |s|
  {
    if s == [] then s
    else if IsSpace(s[0]) then TrimSpace(s[1..])
    else if IsSpace(s[|s| - 1]) then TrimSpace(s[..|s| - 1])
    else s
  }

  /** Length of the leading run without white space. */
  function WordLength(s: string): (n: nat)
    ensures n <= |s|
    ensures forall i | 0 <= i < n :: !IsSpace(s[i])
    ensures n < |s| ==> IsSpace(s[n])
  {
    if s == [] || IsSpace(s[0]) then 0 else 1 + WordLength(s[1..])
  }

  /** strings.Fields: the maximal runs without white space. */
  function Fields(s: string): seq<string>
    decreases |s|
  {
    if s == [] then []
    else if IsSpace(s[0]) then Fields(s[1..])
    else
      var n := WordLength(s);
      [s[..n]] + Fields(s[n..])
  }

  lemma {:induction false} FieldsOfJoin(words: seq<string>)
    requires 0 < |words|
    requires forall i | 0 <= i < |words| :: words[i] != [] && NoSpace(words[i])
    ensures Fields(Join(words, ' ')) == words
  {
    var s := Join(words, ' ');
    var n := |words[0]|;
    assert s[..n] == words[0];
    assert forall i | 0 <= i < n :: s[i] == words[0][i];
    if |words| == 1 {
      assert WordLength(s) == n;
      assert Fields(s[n..]) == [];
    } else {
      assert IsSpace(s[n]);
      assert WordLength(s) == n;
      assert s[n..][1..] == Join(words[1..], ' ');
      FieldsOfJoin(words[1..]);
    }
  }

  lemma {:induction false} JoinEnds(words: seq<string>)
    requires 0 < |words|
    requires forall i | 0 <= i < |words| :: words[i] != [] && NoSpace(words[i])
    ensures var s := Join(words, ' '); s != [] && !IsSpace(s[0]) && !IsSpace(s[|s| - 1])
  {
    if |words| > 1 {
      JoinEnds(words[1..]);
    }
  }
}
