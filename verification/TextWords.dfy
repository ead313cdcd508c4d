/** What strings.Fields, strings.TrimSpace and strings.Split make of any text, said by concatenation. */
module TextWords {
  import opened Text

  /** White space, by code point: the property White_Space of the Unicode standard. */
  lemma SpaceIff(c: char)
    ensures IsSpace(c) <==>
              var n := c as int;
              || 9 <= n <= 13 || n == 32 || n == 133 || n == 160 || n == 5760 || 8192 <= n <= 8202
              || n == 8232 || n == 8233 || n == 8239 || n == 8287 || n == 12288
  {
  }

  ghost predicate AllSpace(s: string) { forall i | 0 <= i < |s| :: IsSpace(s[i]) }

  /** s consists of these words, not empty and without white space, with white space between any two of them, and
      perhaps before the first and after the last. */
  ghost predicate AreWords(s: string, words: seq<string>)
    decreases |words|
  {
    if words == [] then AllSpace(s)
    else exists lead, rest :: FirstWord(s, lead, words[0], rest) && AreWords(rest, words[1..])
  }

  ghost predicate FirstWord(s: string, lead: string, word: string, rest: string) {
    && s == lead + word + rest && AllSpace(lead) && word != "" && NoSpace(word) && (rest == "" || IsSpace(rest[0]))
  }

  lemma {:induction false} SkipSpace(lead: string, s: string)
    requires AllSpace(lead)
    ensures Fields(lead + s) == Fields(s)
  {
    if lead == "" {
      assert lead + s == s;
    } else {
      assert (lead + s)[0] == lead[0] && (lead + s)[1..] == lead[1..] + s;
      SkipSpace(lead[1..], s);
    }
  }

  lemma {:induction false} WordLengthIs(word: string, rest: string)
    requires NoSpace(word) && (rest == "" || IsSpace(rest[0]))
    ensures WordLength(word + rest) == |word|
  {
    hide WordLength;
    var s, n := word + rest, WordLength(word + rest);
    assert forall i | 0 <= i < |word| :: s[i] == word[i];
    assert rest != "" ==> s[|word|] == rest[0];
  }

  lemma TakeWord(word: string, rest: string)
    requires word != "" && NoSpace(word) && (rest == "" || IsSpace(rest[0]))
    ensures Fields(word + rest) == [word] + Fields(rest)
  {
    hide WordLength;
    var s := word + rest;
    assert s[0] == word[0];
    WordLengthIs(word, rest);
    assert s[..|word|] == word && s[|word|..] == rest;
  }

  lemma {:induction false} WordsAreFields(s: string, words: seq<string>)
    requires AreWords(s, words)
    ensures Fields(s) == words
    decreases |words|
  {
    if words == [] {
      SkipSpace(s, "");
      assert s + "" == s;
    } else {
      var lead, rest :| FirstWord(s, lead, words[0], rest) && AreWords(rest, words[1..]);
      hide Fields, AreWords;
      SkipSpace(lead, words[0] + rest);
      assert lead + (words[0] + rest) == s;
      TakeWord(words[0], rest);
      WordsAreFields(rest, words[1..]);
    }
  }

  lemma {:induction false} MoreLead(s: string, words: seq<string>)
    requires s != "" && IsSpace(s[0]) && AreWords(s[1..], words)
    ensures AreWords(s, words)
  {
    if words != [] {
      var lead, rest :| FirstWord(s[1..], lead, words[0], rest) && AreWords(rest, words[1..]);
      assert s == [s[0]] + s[1..];
      assert FirstWord(s, [s[0]] + lead, words[0], rest);
    }
  }

  lemma MoreWords(s: string, lead: string, word: string, rest: string, words: seq<string>)
    requires FirstWord(s, lead, word, rest) && AreWords(rest, words)
    ensures AreWords(s, [word] + words)
  {
    var all := [word] + words;
    assert all[1..] == words;
    assert FirstWord(s, lead, all[0], rest) && AreWords(rest, all[1..]);
  }

  lemma {:induction false} FieldsAreWords(s: string)
    ensures AreWords(s, Fields(s))
    decreases |s|
  {
    if s != "" {
      if IsSpace(s[0]) {
        FieldsAreWords(s[1..]);
        MoreLead(s, Fields(s[1..]));
      } else {
        var n := WordLength(s);
        FieldsAreWords(s[n..]);
        assert s == "" + s[..n] + s[n..];
        MoreWords(s, "", s[..n], s[n..], Fields(s[n..]));
      }
    }
  }

  /** Fields gives the words of any text, whatever white space stands between and around them. */
  lemma FieldsIff(s: string, words: seq<string>)
    ensures Fields(s) == words <==> AreWords(s, words)
  {
    FieldsAreWords(s);
    if AreWords(s, words) {
      WordsAreFields(s, words);
    }
  }

  // ------------------------------------------------------------------------ trimming

  ghost predicate IsTrimmed(s: string, t: string) {
    && (t == "" || (!IsSpace(t[0]) && !IsSpace(t[|t| - 1])))
    && exists a, b :: AllSpace(a) && AllSpace(b) && s == a + t + b
  }

  lemma GrowFront(s: string, t: string)
    requires s != "" && IsSpace(s[0]) && IsTrimmed(s[1..], t)
    ensures IsTrimmed(s, t)
  {
    var a, b :| AllSpace(a) && AllSpace(b) && s[1..] == a + t + b;
    assert AllSpace([s[0]] + a) && s == [s[0]] + a + t + b;
  }

  lemma GrowBack(s: string, t: string)
    requires s != "" && IsSpace(s[|s| - 1]) && IsTrimmed(s[..|s| - 1], t)
    ensures IsTrimmed(s, t)
  {
    var init, last := s[..|s| - 1], s[|s| - 1];
    var a, b :| AllSpace(a) && AllSpace(b) && init == a + t + b;
    assert AllSpace(b + [last]) && s == a + t + (b + [last]);
  }

  lemma {:induction false} TrimSpaceTrims(s: string)
    ensures IsTrimmed(s, TrimSpace(s))
    decreases |s|
  {
    hide IsTrimmed;
    if s == "" || (!IsSpace(s[0]) && !IsSpace(s[|s| - 1])) {
      NothingToTrim(s);
    } else if IsSpace(s[0]) {
      TrimSpaceTrims(s[1..]);
      GrowFront(s, TrimSpace(s[1..]));
    } else {
      TrimSpaceTrims(s[..|s| - 1]);
      GrowBack(s, TrimSpace(s[..|s| - 1]));
    }
  }

  lemma NothingToTrim(s: string)
    requires s == "" || (!IsSpace(s[0]) && !IsSpace(s[|s| - 1]))
    ensures IsTrimmed(s, s)
  {
    assert s == "" + s + "" && AllSpace("");
  }

  lemma EndsOf(s: string, a: string, t: string, b: string)
    requires AllSpace(a) && AllSpace(b) && s == a + t + b && t != "" && !IsSpace(t[0]) && !IsSpace(t[|t| - 1])
    ensures (forall i | 0 <= i < |a| :: IsSpace(s[i])) && !IsSpace(s[|a|])
    ensures (forall i | |s| - |b| <= i < |s| :: IsSpace(s[i])) && !IsSpace(s[|s| - |b| - 1])
    ensures t == s[|a|..|s| - |b|]
  {
    assert forall i | 0 <= i < |a| :: s[i] == a[i];
    assert forall i | |s| - |b| <= i < |s| :: s[i] == b[i - (|s| - |b|)];
  }

  lemma OnlySpace(s: string, a: string, b: string)
    requires AllSpace(a) && AllSpace(b) && s == a + "" + b
    ensures AllSpace(s)
  {
    assert forall i | 0 <= i < |s| :: s[i] == if i < |a| then a[i] else b[i - |a|];
  }

  /** Both ends of a trimmed text are determined. */
  lemma TrimUnique(s: string, t: string, u: string)
    requires IsTrimmed(s, t) && IsTrimmed(s, u)
    ensures t == u
  {
    hide IsSpace;
    var a, b :| AllSpace(a) && AllSpace(b) && s == a + t + b;
    var c, d :| AllSpace(c) && AllSpace(d) && s == c + u + d;
    if t == "" {
      OnlySpace(s, a, b);
    } else {
      EndsOf(s, a, t, b);
    }
    if u == "" {
      OnlySpace(s, c, d);
    } else {
      EndsOf(s, c, u, d);
    }
  }

  lemma TrimIff(s: string, t: string)
    ensures TrimSpace(s) == t <==> IsTrimmed(s, t)
  {
    TrimSpaceTrims(s);
    if IsTrimmed(s, t) {
      TrimUnique(s, t, TrimSpace(s));
    }
  }

  lemma {:induction false} SpaceAtEnd(s: string, c: char)
    requires IsSpace(c)
    ensures Fields(s + [c]) == Fields(s)
    decreases |s|
  {
    if s == "" {
      assert Fields([c][1..]) == [];
    } else if IsSpace(s[0]) {
      assert (s + [c])[1..] == s[1..] + [c];
      SpaceAtEnd(s[1..], c);
    } else {
      var n := WordLength(s);
      hide WordLength;
      assert s == s[..n] + s[n..] && s + [c] == s[..n] + (s[n..] + [c]);
      TakeWord(s[..n], s[n..]);
      TakeWord(s[..n], s[n..] + [c]);
      SpaceAtEnd(s[n..], c);
    }
  }

  /** Trimming first makes no difference to the words. */
  lemma {:induction false} FieldsOfTrim(s: string)
    ensures Fields(TrimSpace(s)) == Fields(s)
    decreases |s|
  {
    if s == "" || (!IsSpace(s[0]) && !IsSpace(s[|s| - 1])) {
    } else if IsSpace(s[0]) {
      FieldsOfTrim(s[1..]);
    } else {
      var init, last := s[..|s| - 1], s[|s| - 1];
      FieldsOfTrim(init);
      SpaceAtEnd(init, last);
      assert s == init + [last];
    }
  }

  // ----------------------------------------------------------------------- splitting

  lemma {:induction false} JoinOfSplit(s: string, sep: char)
    ensures Join(Split(s, sep), sep) == s && forall i | 0 <= i < |Split(s, sep)| :: sep !in Split(s, sep)[i]
    decreases |s|
  {
    if IndexOf(s, sep) == |s| {
      NoSplit(s, sep);
    } else {
      SplitBack(s, sep);
      var i := IndexOf(s, sep);
      JoinOfSplit(s[i + 1..], sep);
      JoinMore(Split(s, sep), sep);
      assert Split(s, sep)[1..] == Split(s[i + 1..], sep);
    }
  }

  /** Split takes a text apart at exactly the separators. */
  lemma SplitIff(s: string, sep: char, parts: seq<string>)
    requires parts != []
    ensures Split(s, sep) == parts <==> Join(parts, sep) == s && forall i | 0 <= i < |parts| :: sep !in parts[i]
  {
    JoinOfSplit(s, sep);
    if Join(parts, sep) == s && forall i | 0 <= i < |parts| :: sep !in parts[i] {
      SplitOfJoin(parts, sep);
    }
  }
}
