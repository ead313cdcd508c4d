/** backend/internal/logstore: what the log store must retain, said about the plain list of all appends. */
module LogHistory {
  import opened Basics

  /** A string here is a sequence of bytes. */
  datatype Entry = Entry(seqNo: int, ts: int, line: string)

  datatype Append = Append(key: string, entry: Entry)

  // ----------------------------------------------------------------------- stream keys

  function StreamKey(runID: string, stageID: string): string { runID + ['\0'] + stageID }

  predicate NoNul(s: string) { forall i | 0 <= i < |s| :: s[i] != '\0' }

  lemma KeySplits(a: string, b: string, c: string)
    ensures StreamKey(a + ['\0'] + b, c) == StreamKey(a, b + ['\0'] + c)
  {
  }

  lemma NulSplits(s: string) returns (a: string, b: string)
    requires !NoNul(s)
    ensures s == a + ['\0'] + b
  {
    var i :| 0 <= i < |s| && s[i] == '\0';
    a, b := s[..i], s[i + 1..];
  }

  /** Both ids are recovered from the key exactly when neither holds a NUL. */
  lemma KeyUniqueIff(runID: string, stageID: string)
    ensures (forall r, s | StreamKey(r, s) == StreamKey(runID, stageID) :: r == runID && s == stageID)
            <==> NoNul(runID) && NoNul(stageID)
  {
    var k := StreamKey(runID, stageID);
    if NoNul(runID) && NoNul(stageID) {
      forall r, s | StreamKey(r, s) == k ensures r == runID && s == stageID {
        OnlyNul(runID, stageID, |r|);
        assert StreamKey(r, s)[|r|] == '\0';
        assert r == StreamKey(r, s)[..|r|] && s == StreamKey(r, s)[|r| + 1..];
        assert runID == k[..|runID|] && stageID == k[|runID| + 1..];
      }
    } else if !NoNul(runID) {
      var a, b := NulSplits(runID);
      KeySplits(a, b, stageID);
      assert StreamKey(a, b + ['\0'] + stageID) == k && |a| < |runID|;
    } else {
      var a, b := NulSplits(stageID);
      KeySplits(runID, a, b);
      assert StreamKey(runID + ['\0'] + a, b) == k && |runID + ['\0'] + a| > |runID|;
    }
  }

  lemma OnlyNul(r: string, s: string, i: nat)
    requires NoNul(r) && NoNul(s) && i < |StreamKey(r, s)|
    ensures StreamKey(r, s)[i] == '\0' <==> i == |r|
  {
  }

  // ------------------------------------------------------------------- the byte cap

  function Bytes(s: seq<Entry>): nat {
    if s == [] then 0 else Bytes(s[..|s| - 1]) + |s[|s| - 1].line|
  }

  lemma {:induction false} BytesSplit(s: seq<Entry>, t: seq<Entry>)
    ensures Bytes(s + t) == Bytes(s) + Bytes(t)
  {
    if t == [] {
      assert s + t == s;
    } else {
      assert (s + t)[..|s + t| - 1] == s + t[..|t| - 1];
      BytesSplit(s, t[..|t| - 1]);
    }
  }

  /** What the byte cap leaves of s. */
  function Fit(s: seq<Entry>, cap: int): seq<Entry> {
    if Bytes(s) <= cap || |s| <= 1 then s else Fit(s[1..], cap)
  }

  ghost predicate Small(s: seq<Entry>, cap: int) { Bytes(s) <= cap || |s| <= 1 }

  /** t is the longest suffix of s that is within the cap or a single entry. */
  ghost predicate IsLongestSmall(s: seq<Entry>, cap: int, t: seq<Entry>) {
    exists i :: IsLongestFrom(s, cap, t, i)
  }

  ghost predicate IsLongestFrom(s: seq<Entry>, cap: int, t: seq<Entry>, i: int) {
    0 <= i <= |s| && t == s[i..] && Small(t, cap) && forall j | 0 <= j < i :: !Small(s[j..], cap)
  }

  lemma {:induction false} FitIsLongest(s: seq<Entry>, cap: int)
    ensures IsLongestSmall(s, cap, Fit(s, cap))
    ensures s != [] ==> Fit(s, cap) != []
    decreases |s|
  {
    hide Bytes;
    if Bytes(s) <= cap || |s| <= 1 {
      assert IsLongestFrom(s, cap, Fit(s, cap), 0);
    } else {
      FitIsLongest(s[1..], cap);
      var i :| IsLongestFrom(s[1..], cap, Fit(s, cap), i);
      forall j | 0 <= j < i + 1 ensures !Small(s[j..], cap) {
        assert j == 0 ==> s[0..] == s;
        assert j > 0 ==> s[j..] == s[1..][j - 1..];
      }
      assert s[1..][i..] == s[i + 1..];
      assert IsLongestFrom(s, cap, Fit(s, cap), i + 1);
    }
  }

  lemma {:induction false} LongestUnique(s: seq<Entry>, cap: int, t: seq<Entry>, u: seq<Entry>)
    requires IsLongestSmall(s, cap, t) && IsLongestSmall(s, cap, u)
    ensures t == u
  {
    var i :| IsLongestFrom(s, cap, t, i);
    var j :| IsLongestFrom(s, cap, u, j);
    assert i == j;
  }

  /** Trimming as entries arrive loses nothing that trimming everything at the end would keep. */
  lemma {:induction false} FitIncremental(s: seq<Entry>, e: Entry, cap: int)
    ensures Fit(Fit(s, cap) + [e], cap) == Fit(s + [e], cap)
    decreases |s|
  {
    hide Bytes;
    if !(Bytes(s) <= cap || |s| <= 1) {
      FitIncremental(s[1..], e, cap);
      BytesSplit(s, [e]);
      assert (s + [e])[1..] == s[1..] + [e];
    }
  }

  // ---------------------------------------------------------------- which streams live

  function Without(keys: seq<string>, key: string): (r: seq<string>)
    ensures key !in r && forall k | k != key :: k in r <==> k in keys
    ensures |r| <= |keys|
  {
    if keys == [] then []
    else Without(keys[..|keys| - 1], key) + (if keys[|keys| - 1] == key then [] else [keys[|keys| - 1]])
  }

  /** All keys, the least recently appended first. */
  function Recency(h: seq<Append>): seq<string> {
    if h == [] then []
    else Without(Recency(h[..|h| - 1]), h[|h| - 1].key) + [h[|h| - 1].key]
  }

  /** The keys that may have a stream: the max most recently appended ones. */
  function Live(h: seq<Append>, max: nat): seq<string> { LastOf(Recency(h), max) }

  lemma {:induction false} WithoutDistinct(keys: seq<string>, key: string)
    requires Distinct(keys)
    ensures Distinct(Without(keys, key))
    ensures |Without(keys, key)| == |keys| - (if key in keys then 1 else 0)
  {
    if keys != [] {
      var init, last := keys[..|keys| - 1], keys[|keys| - 1];
      WithoutDistinct(init, key);
      assert last !in init;
      DistinctSnoc(Without(init, key), last);
    }
  }

  lemma DistinctSnoc(keys: seq<string>, key: string)
    requires Distinct(keys)
    ensures key !in keys ==> Distinct(keys + [key])
  {
  }

  lemma {:induction false} RecencyDistinct(h: seq<Append>)
    ensures Distinct(Recency(h))
  {
    if h != [] {
      RecencyDistinct(h[..|h| - 1]);
      WithoutDistinct(Recency(h[..|h| - 1]), h[|h| - 1].key);
    }
  }

  lemma {:induction false} WithoutSplit(a: seq<string>, b: seq<string>, key: string)
    ensures Without(a + b, key) == Without(a, key) + Without(b, key)
  {
    if b == [] {
      assert a + b == a;
    } else {
      assert (a + b)[..|a + b| - 1] == a + b[..|b| - 1];
      WithoutSplit(a, b[..|b| - 1], key);
    }
  }

  lemma {:induction false} WithoutAbsent(a: seq<string>, key: string)
    requires key !in a
    ensures Without(a, key) == a
  {
    if a != [] {
      WithoutAbsent(a[..|a| - 1], key);
    }
  }

  /** Touching a key in the bounded list and dropping the front is the bounded view of touching it in the full list. */
  lemma LiveStep(keys: seq<string>, key: string, max: nat)
    requires Distinct(keys) && 1 <= max
    ensures LastOf(Without(keys, key) + [key], max) == LastOf(Without(LastOf(keys, max), key) + [key], max)
  {
    if |keys| > max {
      var front, back := keys[..|keys| - max], keys[|keys| - max..];
      assert keys == front + back && back == LastOf(keys, max);
      hide LastOf, Without;
      WithoutSplit(front, back, key);
      BackHolds(front, back, key);
      assert Without(keys, key) + [key] == Without(front, key) + (Without(back, key) + [key]);
      SuffixOf(Without(front, key), Without(back, key) + [key], max);
    }
  }

  lemma BackHolds(front: seq<string>, back: seq<string>, key: string)
    requires Distinct(front + back)
    ensures |back| <= |Without(back, key)| + 1
  {
    forall i, j | 0 <= i < j < |back| ensures back[i] != back[j] {
      assert (front + back)[|front| + i] != (front + back)[|front| + j];
    }
    WithoutDistinct(back, key);
  }

  lemma SuffixOf<T>(a: seq<T>, b: seq<T>, n: nat)
    requires n <= |b|
    ensures LastOf(a + b, n) == LastOf(b, n)
  {
  }

  // ------------------------------------------------------------ what a live stream holds

  /** The entries appended to key since its stream was last created. */
  function SinceCreated(h: seq<Append>, max: nat, key: string): seq<Entry> {
    if h == [] then []
    else
      var init, a := h[..|h| - 1], h[|h| - 1];
      (if key in Live(init, max) then SinceCreated(init, max, key) else [])
      + (if a.key == key then [a.entry] else [])
  }

  function AllOf(h: seq<Append>, key: string): seq<Entry> {
    if h == [] then []
    else AllOf(h[..|h| - 1], key) + (if h[|h| - 1].key == key then [h[|h| - 1].entry] else [])
  }

  /** What Read may see of a key after the appends h. */
  function Retained(h: seq<Append>, cap: int, max: nat, key: string): seq<Entry> {
    if key in Live(h, max) then Fit(SinceCreated(h, max, key), cap) else []
  }

  lemma {:induction false} RecencyIffAppended(h: seq<Append>, key: string)
    ensures key in Recency(h) <==> AllOf(h, key) != []
  {
    if h != [] {
      RecencyIffAppended(h[..|h| - 1], key);
    }
  }

  /** While no more than max keys have been used, nothing is ever evicted and the store is a byte-capped
      view of the whole history of each key. */
  lemma {:induction false} NothingEvicted(h: seq<Append>, cap: int, max: nat, key: string)
    requires |Recency(h)| <= max
    ensures SinceCreated(h, max, key) == AllOf(h, key)
    ensures Retained(h, cap, max, key) == Fit(AllOf(h, key), cap)
  {
    RecencyIffAppended(h, key);
    if h != [] {
      var init := h[..|h| - 1];
      RecencyDistinct(init);
      WithoutDistinct(Recency(init), h[|h| - 1].key);
      NothingEvicted(init, cap, max, key);
      RecencyIffAppended(init, key);
    }
  }

  predicate IsSuffix(s: seq<Entry>, t: seq<Entry>) { |s| <= |t| && s == t[|t| - |s|..] }

  lemma SuffixSnoc(s: seq<Entry>, t: seq<Entry>, u: seq<Entry>)
    requires IsSuffix(s, t)
    ensures IsSuffix(s + u, t + u)
  {
  }

  lemma SuffixTrans(s: seq<Entry>, t: seq<Entry>, u: seq<Entry>)
    requires IsSuffix(s, t) && IsSuffix(t, u)
    ensures IsSuffix(s, u)
  {
  }

  lemma {:induction false} SinceCreatedIsSuffix(h: seq<Append>, max: nat, key: string)
    ensures IsSuffix(SinceCreated(h, max, key), AllOf(h, key))
  {
    hide IsSuffix, Live;
    NothingIsSuffix(AllOf(h, key));
    if h != [] {
      var init := h[..|h| - 1];
      SinceCreatedIsSuffix(init, max, key);
      NothingIsSuffix(AllOf(init, key));
      SuffixSnoc(if key in Live(init, max) then SinceCreated(init, max, key) else [], AllOf(init, key),
                 if h[|h| - 1].key == key then [h[|h| - 1].entry] else []);
    }
  }

  lemma NothingIsSuffix(s: seq<Entry>)
    ensures IsSuffix([], s)
  {
  }

  /** What is retained is always the end of what was appended. */
  lemma RetainedIsSuffix(h: seq<Append>, cap: int, max: nat, key: string)
    ensures IsSuffix(Retained(h, cap, max, key), AllOf(h, key))
  {
    NothingIsSuffix(AllOf(h, key));
    SinceCreatedIsSuffix(h, max, key);
    FitIsSuffix(SinceCreated(h, max, key), cap);
    hide IsSuffix, Live, SinceCreated, Fit;
    SuffixTrans(Fit(SinceCreated(h, max, key), cap), SinceCreated(h, max, key), AllOf(h, key));
  }

  lemma FitIsSuffix(s: seq<Entry>, cap: int)
    ensures IsSuffix(Fit(s, cap), s)
  {
    FitIsLongest(s, cap);
  }
}
