/** What the history functions of the log store mean: who was used last, what is kept of whom, and in which order. */
module LogOrder {
  import opened Basics
  import opened LogHistory
  import opened LogStore

  /** The position of the last append to key. */
  ghost predicate LastUse(h: seq<Append>, key: string, p: int) {
    0 <= p < |h| && h[p].key == key && forall q | p < q < |h| :: h[q].key != key
  }

  lemma {:induction false} WithoutPlaces(keys: seq<string>, key: string, i: int, j: int) returns (a: int, b: int)
    requires 0 <= i < j < |Without(keys, key)|
    ensures 0 <= a < b < |keys| && keys[a] == Without(keys, key)[i] != key && keys[b] == Without(keys, key)[j] != key
  {
    var init, last := keys[..|keys| - 1], keys[|keys| - 1];
    if j < |Without(init, key)| {
      a, b := WithoutPlaces(init, key, i, j);
    } else {
      a := WithoutPlace(init, key, i);
      b := |keys| - 1;
    }
  }

  lemma {:induction false} WithoutPlace(keys: seq<string>, key: string, i: int) returns (a: int)
    requires 0 <= i < |Without(keys, key)|
    ensures 0 <= a < |keys| && keys[a] == Without(keys, key)[i] != key
  {
    var init := keys[..|keys| - 1];
    if i < |Without(init, key)| {
      a := WithoutPlace(init, key, i);
    } else {
      a := |keys| - 1;
    }
  }

  lemma LastUseSnoc(h: seq<Append>, a: Append, key: string, p: int)
    requires LastUse(h, key, p) && a.key != key
    ensures LastUse(h + [a], key, p)
  {
  }

  lemma RecencySnoc(h: seq<Append>, a: Append)
    ensures Recency(h + [a]) == Without(Recency(h), a.key) + [a.key]
  {
    assert (h + [a])[..|h|] == h;
  }

  lemma {:induction false} UsedLast(h: seq<Append>, i: int) returns (p: int)
    requires 0 <= i < |Recency(h)|
    ensures LastUse(h, Recency(h)[i], p)
  {
    var init, a := h[..|h| - 1], h[|h| - 1];
    assert h == init + [a];
    var rest := Without(Recency(init), a.key);
    if i < |rest| {
      var x := WithoutPlace(Recency(init), a.key, i);
      p := UsedLast(init, x);
      LastUseSnoc(init, a, rest[i], p);
    } else {
      p := |h| - 1;
    }
  }

  lemma RecencyAt(h: seq<Append>, a: Append, i: int)
    requires 0 <= i < |Recency(h + [a])|
    ensures var rest := Without(Recency(h), a.key);
            |Recency(h + [a])| == |rest| + 1 && Recency(h + [a])[i] == if i < |rest| then rest[i] else a.key
  {
    RecencySnoc(h, a);
    hide Recency, Without;
  }

  /** The recency order lists the keys by their last use, the least recent first. */
  lemma {:induction false} RecencyByLastUse(h: seq<Append>, i: int, j: int) returns (p: int, q: int)
    requires 0 <= i < j < |Recency(h)|
    ensures p < q && LastUse(h, Recency(h)[i], p) && LastUse(h, Recency(h)[j], q)
  {
    var init, a := h[..|h| - 1], h[|h| - 1];
    assert h == init + [a];
    RecencyAt(init, a, i);
    RecencyAt(init, a, j);
    hide Recency, Without, LastUse;
    var k, l := Recency(h)[i], Recency(h)[j];
    if j < |Without(Recency(init), a.key)| {
      var x, y := WithoutPlaces(Recency(init), a.key, i, j);
      p, q := RecencyByLastUse(init, x, y);
      LastUseSnoc(init, a, k, p);
      LastUseSnoc(init, a, l, q);
    } else {
      var x := WithoutPlace(Recency(init), a.key, i);
      p := UsedLast(h, i);
      q := |init|;
      NewestUse(init, a);
      EarlierUse(init, a, k, p);
    }
  }

  lemma NewestUse(h: seq<Append>, a: Append)
    ensures LastUse(h + [a], a.key, |h|)
  {
  }

  lemma EarlierUse(h: seq<Append>, a: Append, key: string, p: int)
    requires LastUse(h + [a], key, p) && key != a.key
    ensures p < |h|
  {
  }

  /** Exactly the used keys are listed. */
  lemma RecencyIffUsed(h: seq<Append>, key: string)
    ensures key in Recency(h) <==> exists p :: LastUse(h, key, p)
  {
    if key in Recency(h) {
      var i :| 0 <= i < |Recency(h)| && Recency(h)[i] == key;
      var p := UsedLast(h, i);
    }
    if p :| LastUse(h, key, p) {
      IsUsed(h, key, p);
    }
  }

  lemma {:induction false} IsUsed(h: seq<Append>, key: string, p: int)
    requires LastUse(h, key, p)
    ensures key in Recency(h)
  {
    var init, a := h[..|h| - 1], h[|h| - 1];
    if a.key != key {
      IsUsed(init, key, p);
      StillThere(Recency(init), a.key, key);
    }
  }

  lemma {:induction false} StillThere(keys: seq<string>, key: string, other: string)
    requires other in keys && other != key
    ensures other in Without(keys, key)
  {
    if other != keys[|keys| - 1] {
      StillThere(keys[..|keys| - 1], key, other);
    }
  }

  lemma LateIsLive(keys: seq<string>, max: nat, j: int)
    requires max < |keys| && |keys| - max <= j < |keys|
    ensures keys[j] in LastOf(keys, max)
  {
    assert LastOf(keys, max)[j - (|keys| - max)] == keys[j];
  }

  /** The live streams are those used last: as many as there may be, and none that is not live was used after one
      that is. */
  lemma LiveAreLatest(h: seq<Append>, max: nat, live: string, other: string, p: int, q: int)
    requires live in Live(h, max) && other !in Live(h, max) && LastUse(h, live, p) && LastUse(h, other, q)
    ensures q < p && |Live(h, max)| == max
  {
    hide Recency, Live, LastUse;
    var i, j := LivePlaces(h, max, live, other, q);
    var y, x := RecencyByLastUse(h, j, i);
    LastUseUnique(h, live, p, x);
    LastUseUnique(h, other, q, y);
  }

  lemma LastUseUnique(h: seq<Append>, key: string, p: int, q: int)
    requires LastUse(h, key, p) && LastUse(h, key, q)
    ensures p == q
  {
  }

  /** A used key that is not live stands before every live one. */
  lemma LivePlaces(h: seq<Append>, max: nat, live: string, other: string, q: int) returns (i: int, j: int)
    requires live in Live(h, max) && other !in Live(h, max) && LastUse(h, other, q)
    ensures 0 <= j < i < |Recency(h)| && Recency(h)[i] == live && Recency(h)[j] == other && |Live(h, max)| == max
  {
    var keys := Recency(h);
    RecencyIffUsed(h, other);
    hide Recency, LastUse;
    j :| 0 <= j < |keys| && keys[j] == other;
    assert |keys| > max;
    var k :| 0 <= k < max && LastOf(keys, max)[k] == live;
    i := |keys| - max + k;
    if |keys| - max <= j {
      LateIsLive(keys, max, j);
      assert false;
    }
  }

  // ------------------------------------------------------------------------- contents

  /** All lines, one after another. */
  ghost function Lines(s: seq<Entry>): string { if s == [] then "" else s[0].line + Lines(s[1..]) }

  /** The cap counts the bytes of the lines. */
  lemma {:induction false} BytesAreOfLines(s: seq<Entry>)
    ensures Bytes(s) == |Lines(s)|
  {
    if s != [] {
      assert s == [s[0]] + s[1..];
      BytesSplit([s[0]], s[1..]);
      assert [s[0]][..0] == [];
      BytesAreOfLines(s[1..]);
    }
  }

  /** The entries appended to key, in order: position by position those of the appends to it. */
  lemma {:induction false} AllOfIs(h: seq<Append>, key: string)
    ensures var own := Filter(h, (a: Append) => a.key == key);
            |AllOf(h, key)| == |own| && forall k | 0 <= k < |own| :: AllOf(h, key)[k] == own[k].entry
  {
    AllOfBy(h, key, (a: Append) => a.key == key);
  }

  lemma {:induction false} AllOfBy(h: seq<Append>, key: string, own: Append -> bool)
    requires forall a :: own(a) <==> a.key == key
    ensures |AllOf(h, key)| == |Filter(h, own)|
    ensures forall k | 0 <= k < |AllOf(h, key)| :: AllOf(h, key)[k] == Filter(h, own)[k].entry
  {
    if h != [] {
      var init, a := h[..|h| - 1], h[|h| - 1];
      hide Filter;
      AllOfBy(init, key, own);
      FilterSnoc(init, a, own);
      assert h == init + [a];
    } else {
      assert Filter(h, own) == [];
    }
  }

  lemma AllOfSnoc(h: seq<Append>, a: Append, key: string)
    ensures AllOf(h + [a], key) == AllOf(h, key) + if a.key == key then [a.entry] else []
  {
    assert (h + [a])[..|h|] == h;
  }

  lemma CreatedNow(h: seq<Append>, a: Append, max: nat, key: string)
    ensures SinceCreated(h + [a], max, key)
            == (if key in Live(h, max) then SinceCreated(h, max, key) else []) + if a.key == key then [a.entry] else []
  {
    assert (h + [a])[..|h|] == h;
  }

  lemma NothingLives(max: nat, key: string)
    ensures key !in Live([], max)
  {
  }

  /** A stream holds what was appended to its key since the last moment the key was not live. */
  lemma {:induction false} SinceCreatedIs(h: seq<Append>, max: nat, key: string) returns (i: nat)
    requires h != []
    ensures i < |h| && key !in Live(h[..i], max) && forall j | i < j < |h| :: key in Live(h[..j], max)
    ensures SinceCreated(h, max, key) == AllOf(h[i..], key)
  {
    hide Live, AllOf, SinceCreated;
    var init, a := h[..|h| - 1], h[|h| - 1];
    assert h == init + [a];
    CreatedNow(init, a, max, key);
    if key in Live(init, max) {
      NothingLives(max, key);
      i := SinceCreatedIs(init, max, key);
      assert h[..i] == init[..i];
      forall j | i < j < |h| ensures key in Live(h[..j], max) {
        assert h[..j] == if j < |init| then init[..j] else init;
      }
      assert h[i..] == init[i..] + [a];
      AllOfSnoc(init[i..], a, key);
    } else {
      i := |init|;
      assert h[..i] == init && h[i..] == [] + [a];
      AllOfSnoc([], a, key);
      assert AllOf([], key) == [] by { AllOfNothing(key); }
    }
  }

  lemma AllOfNothing(key: string)
    ensures AllOf([], key) == []
  {
  }

  /** Read gives the newer entries in the order they are kept. */
  lemma {:induction false} NewerIs(s: seq<Entry>, since: int, newer: Entry -> bool)
    requires forall e :: newer(e) <==> e.seqNo > since
    ensures Newer(s, since) == Filter(s, newer)
  {
    if s != [] {
      var init, e := s[..|s| - 1], s[|s| - 1];
      hide Filter;
      NewerIs(init, since, newer);
      FilterSnoc(init, e, newer);
      assert s == init + [e];
    }
  }
}
