/** backend/internal/logstore/memory.go: a byte-capped ring per stream under an LRU over streams. */
module LogStore {
  import opened Basics
  import opened LogHistory

  class Stream {
    const key: string
    var entries: seq<Entry>
    var bytes: int

    constructor (key: string)
      ensures this.key == key && entries == [] && bytes == 0
    {
      this.key := key;
      entries, bytes := [], 0;
    }

    ghost predicate Valid()
      reads this
    {
      bytes == Bytes(entries)
    }

    /** Appends e and drops the oldest entries until the stream fits, keeping at least e. */
    method Push(e: Entry, cap: int)
      requires Valid()
      modifies this
      ensures Valid() && entries == Fit(old(entries) + [e], cap)
    {
      hide Fit;
      entries := entries + [e];
      bytes := bytes + |e.line|;
      assert entries[..|entries| - 1] == old(entries);
      while bytes > cap && |entries| > 1
        invariant Valid() && Fit(entries, cap) == Fit(old(entries) + [e], cap)
        decreases |entries|
      {
        FitLoop(entries, cap);
        bytes := bytes - |entries[0].line|;
        entries := entries[1..];
      }
      FitLoop(entries, cap);
    }
  }

  /** One turn of the trimming loop, and its end. */
  lemma FitLoop(s: seq<Entry>, cap: int)
    ensures Bytes(s) > cap && |s| > 1 ==> Fit(s, cap) == Fit(s[1..], cap) && Bytes(s[1..]) == Bytes(s) - |s[0].line|
    ensures !(Bytes(s) > cap && |s| > 1) ==> Fit(s, cap) == s
  {
    if |s| > 1 {
      BytesSplit(s[..1], s[1..]);
      assert s == s[..1] + s[1..] && s[..1][..0] == [];
    }
  }

  function KeysOf(lru: seq<Stream>): (keys: seq<string>)
    ensures |keys| == |lru| && forall i | 0 <= i < |lru| :: keys[i] == lru[i].key
  {
    if lru == [] then [] else KeysOf(lru[..|lru| - 1]) + [lru[|lru| - 1].key]
  }

  /** list.MoveToBack takes the node of s out of the list and puts it last. */
  function TakeOut(lru: seq<Stream>, s: Stream): (r: seq<Stream>)
    ensures (forall t | t in r :: t in lru && t != s) && forall t | t in lru && t != s :: t in r
  {
    if lru == [] then []
    else TakeOut(lru[..|lru| - 1], s) + (if lru[|lru| - 1] == s then [] else [lru[|lru| - 1]])
  }

  lemma {:induction false} TakeOutKeys(lru: seq<Stream>, s: Stream)
    requires forall t | t in lru && t.key == s.key :: t == s
    ensures KeysOf(TakeOut(lru, s)) == Without(KeysOf(lru), s.key)
  {
    if lru != [] {
      var init, last := lru[..|lru| - 1], lru[|lru| - 1];
      assert last in lru && forall t | t in init :: t in lru;
      assert lru == init + [last];
      TakeOutKeys(init, s);
      OneMoreKey(init, last, s);
    }
  }

  lemma OneMoreKey(init: seq<Stream>, last: Stream, s: Stream)
    requires KeysOf(TakeOut(init, s)) == Without(KeysOf(init), s.key) && (last.key == s.key ==> last == s)
    ensures KeysOf(TakeOut(init + [last], s)) == Without(KeysOf(init + [last]), s.key)
  {
    hide KeysOf, TakeOut, Without;
    KeysSnoc(init, last);
    TakeOutSnoc(init, last, s);
    WithoutSnoc(KeysOf(init), last.key, s.key);
    if last == s {
      assert TakeOut(init, s) + [] == TakeOut(init, s);
      assert Without(KeysOf(init), s.key) + [] == Without(KeysOf(init), s.key);
    } else {
      KeysSnoc(TakeOut(init, s), last);
    }
  }

  lemma TakeOutSnoc(init: seq<Stream>, last: Stream, s: Stream)
    ensures TakeOut(init + [last], s) == TakeOut(init, s) + (if last == s then [] else [last])
  {
    assert (init + [last])[..|init|] == init;
  }

  lemma WithoutSnoc(init: seq<string>, last: string, key: string)
    ensures Without(init + [last], key) == Without(init, key) + (if last == key then [] else [last])
  {
    assert (init + [last])[..|init|] == init;
  }

  lemma KeysSnoc(lru: seq<Stream>, s: Stream)
    ensures KeysOf(lru + [s]) == KeysOf(lru) + [s.key]
  {
  }

  class Memory {
    const maxBytesPerStage: int
    const maxStreams: nat
    var streams: map<string, Stream>
    var lru: seq<Stream>
    /** Every append so far. */
    ghost var history: seq<Append>

    /** The table and the list hold the same streams; the list is the bounded recency order of the history;
        each stream holds what the history says is retained. */
    ghost predicate Valid()
      reads this, streams.Values
    {
      && 1 <= maxBytesPerStage && 1 <= maxStreams
      && Listed(streams, lru) && KeysOf(lru) == Live(history, maxStreams)
      && forall k | k in streams :: Holds(streams[k], history, maxBytesPerStage, maxStreams, k)
    }

    constructor (maxBytesPerStage: int, maxStreams: int)
      ensures Valid() && history == []
      ensures this.maxBytesPerStage == if maxBytesPerStage < 1 then 1 else maxBytesPerStage
      ensures this.maxStreams == if maxStreams < 1 then 1 else maxStreams
    {
      this.maxBytesPerStage := if maxBytesPerStage < 1 then 1 else maxBytesPerStage;
      this.maxStreams := if maxStreams < 1 then 1 else maxStreams;
      streams, lru, history := map[], [], [];
    }

    method Append(runID: string, stageID: string, e: Entry)
      requires Valid()
      modifies this, streams.Values
      ensures Valid() && fresh(streams.Values - old(streams.Values))
      ensures history == old(history) + [LogHistory.Append(StreamKey(runID, stageID), e)]
    {
      hide Listed, Holds, Fit, Live, Without, KeysOf, StreamKey;
      var key := StreamKey(runID, stageID);
      ghost var was, a, before, order := history, LogHistory.Append(key, e), streams, lru;
      ListedKeys(before, order, key);
      var s := Touch(key);
      OwnContent(s, was, a, maxStreams, maxBytesPerStage, key in before);
      s.Push(e, maxBytesPerStage);
      NowHolds(s, was, a, maxStreams, maxBytesPerStage);
      EvictStreams();
      history := history + [a];
      LiveSnoc(was, a, maxStreams);
      forall k | k in streams ensures Holds(streams[k], history, maxBytesPerStage, maxStreams, k) {
        if k != key {
          ListedKeys(before, order, k);
          OtherContent(before[k], was, a, maxBytesPerStage, maxStreams, k);
        }
      }
    }

    /** The stream of key, created if there is none, becomes the most recently used one. */
    method Touch(key: string) returns (s: Stream)
      requires Listed(streams, lru)
      modifies this`streams, this`lru
      ensures Listed(streams, lru) && KeysOf(lru) == Without(old(KeysOf(lru)), key) + [key]
      ensures s.key == key && key in streams && streams[key] == s
      ensures key in old(streams) ==> streams == old(streams)
      ensures key !in old(streams) ==> streams == old(streams)[key := s] && fresh(s) && s.entries == [] && s.Valid()
    {
      ListedKeys(streams, lru, key);
      if key !in streams {
        s := new Stream(key);
        AddListed(streams, lru, s);
        lru := lru + [s];
        streams := streams[key := s];
      } else {
        s := streams[key];
        MoveListed(streams, lru, s);
        lru := TakeOut(lru, s) + [s];
      }
    }

    /** Drops streams from the front of the list while there are too many. */
    method EvictStreams()
      requires Listed(streams, lru) && 1 <= maxStreams
      modifies this`streams, this`lru
      ensures Listed(streams, lru) && KeysOf(lru) == LastOf(old(KeysOf(lru)), maxStreams)
      ensures Within(streams, old(streams))
    {
      hide Listed, KeysOf, LastOf, Live, SinceCreated, Fit, Within;
      ghost var keys, before := KeysOf(lru), streams;
      ListedSize(streams, lru);
      AllWithin(streams);
      LastOfStep(keys, |lru|);
      while |streams| > maxStreams
        invariant Listed(streams, lru) && |streams| == |lru| <= |keys|
        invariant |lru| < |keys| ==> |lru| >= maxStreams
        invariant KeysOf(lru) == LastOf(keys, |lru|)
        invariant Within(streams, before)
        decreases |lru|
      {
        DropListed(streams, lru);
        DropWithin(streams, before, lru[0].key);
        LastOfStep(keys, |lru|);
        var victim := lru[0];
        lru := lru[1..];
        streams := streams - {victim.key};
        ListedSize(streams, lru);
      }
      LastOfStep(keys, maxStreams);
    }

    /** The entries after since that the history says are retained. */
    method Read(runID: string, stageID: string, since: int) returns (out: seq<Entry>)
      requires Valid()
      ensures out == Newer(Retained(history, maxBytesPerStage, maxStreams, StreamKey(runID, stageID)), since)
    {
      hide Listed, Live, SinceCreated, Fit, KeysOf, StreamKey;
      var key := StreamKey(runID, stageID);
      ListedKeys(streams, lru, key);
      if key !in streams || |streams[key].entries| == 0 {
        return [];
      }
      var s := streams[key];
      out := [];
      var i := 0;
      while i < |s.entries|
        invariant 0 <= i <= |s.entries| && out == Newer(s.entries[..i], since)
      {
        assert s.entries[..i + 1][..i] == s.entries[..i];
        if s.entries[i].seqNo > since {
          out := out + [s.entries[i]];
        }
        i := i + 1;
      }
      assert s.entries[..i] == s.entries;
    }
  }

  /** The list holds each stream of the table once. */
  ghost predicate Listed(streams: map<string, Stream>, lru: seq<Stream>) {
    && (forall k | k in streams :: streams[k].key == k && streams[k] in lru)
    && (forall s | s in lru :: s.key in streams && streams[s.key] == s)
    && Distinct(KeysOf(lru))
  }

  /** s holds what the history says is retained of key k. */
  ghost predicate Holds(s: Stream, history: seq<Append>, cap: int, max: nat, k: string)
    reads s
  {
    s.Valid() && s.entries == Fit(SinceCreated(history, max, k), cap)
  }

  ghost predicate Within(a: map<string, Stream>, b: map<string, Stream>) {
    forall k | k in a :: k in b && a[k] == b[k]
  }

  lemma AllWithin(a: map<string, Stream>)
    ensures Within(a, a)
  {
  }

  lemma DropWithin(a: map<string, Stream>, b: map<string, Stream>, k: string)
    requires Within(a, b)
    ensures Within(a - {k}, b)
  {
  }

  lemma ListedKeys(streams: map<string, Stream>, lru: seq<Stream>, key: string)
    requires Listed(streams, lru)
    ensures key in streams <==> key in KeysOf(lru)
  {
    if key in streams {
      var i :| 0 <= i < |lru| && lru[i] == streams[key];
      assert KeysOf(lru)[i] == key;
    }
    if i :| 0 <= i < |lru| && KeysOf(lru)[i] == key {
      assert lru[i] in lru;
    }
  }

  lemma AddListed(streams: map<string, Stream>, lru: seq<Stream>, s: Stream)
    requires Listed(streams, lru) && s.key !in streams
    ensures Listed(streams[s.key := s], lru + [s])
    ensures KeysOf(lru + [s]) == Without(KeysOf(lru), s.key) + [s.key]
  {
    hide KeysOf;
    ListedKeys(streams, lru, s.key);
    KeysSnoc(lru, s);
    WithoutAbsent(KeysOf(lru), s.key);
    DistinctSnoc(KeysOf(lru), s.key);
  }

  lemma MoveListed(streams: map<string, Stream>, lru: seq<Stream>, s: Stream)
    requires Listed(streams, lru) && s.key in streams && streams[s.key] == s
    ensures Listed(streams, TakeOut(lru, s) + [s])
    ensures KeysOf(TakeOut(lru, s) + [s]) == Without(KeysOf(lru), s.key) + [s.key]
  {
    hide KeysOf;
    TakeOutKeys(lru, s);
    KeysSnoc(TakeOut(lru, s), s);
    WithoutDistinct(KeysOf(lru), s.key);
    DistinctSnoc(Without(KeysOf(lru), s.key), s.key);
  }

  lemma DropListed(streams: map<string, Stream>, lru: seq<Stream>)
    requires Listed(streams, lru) && lru != []
    ensures Listed(streams - {lru[0].key}, lru[1..]) && KeysOf(lru[1..]) == KeysOf(lru)[1..]
  {
    var rest, keys := lru[1..], KeysOf(lru);
    assert KeysOf(rest) == keys[1..];
    forall s | s in rest ensures s.key != lru[0].key {
      var i :| 0 <= i < |rest| && rest[i] == s;
      assert keys[i + 1] != keys[0];
    }
  }

  lemma ListedSize(streams: map<string, Stream>, lru: seq<Stream>)
    requires Listed(streams, lru)
    ensures |streams| == |lru|
  {
    forall k ensures k in streams.Keys <==> k in KeysOf(lru) {
      ListedKeys(streams, lru, k);
    }
    SizeOfDistinct(streams.Keys, KeysOf(lru));
    assert |streams| == |streams.Keys|;
  }

  lemma {:induction false} SizeOfDistinct(all: set<string>, keys: seq<string>)
    requires Distinct(keys) && forall k :: k in all <==> k in keys
    ensures |all| == |keys|
  {
    if keys == [] {
      assert all == {};
    } else {
      var init, last := keys[..|keys| - 1], keys[|keys| - 1];
      assert keys == init + [last];
      SizeOfDistinct(all - {last}, init);
    }
  }

  lemma LastOfStep(keys: seq<string>, n: nat)
    ensures 1 <= n <= |keys| ==> LastOf(keys, n)[1..] == LastOf(keys, n - 1)
    ensures LastOf(keys, |keys|) == keys && (|keys| <= n ==> LastOf(keys, n) == keys)
  {
  }

  lemma LiveSnoc(h: seq<Append>, a: Append, max: nat)
    requires 1 <= max
    ensures Live(h + [a], max) == LastOf(Without(Live(h, max), a.key) + [a.key], max)
  {
    assert (h + [a])[..|h|] == h;
    RecencyDistinct(h);
    LiveStep(Recency(h), a.key, max);
  }

  lemma OwnContent(s: Stream, h: seq<Append>, a: Append, max: nat, cap: int, found: bool)
    requires found == (a.key in Live(h, max))
    requires if found then Holds(s, h, cap, max, a.key) else s.Valid() && s.entries == []
    ensures s.Valid() && Fit(s.entries + [a.entry], cap) == Fit(SinceCreated(h + [a], max, a.key), cap)
  {
    hide Fit, Live, SinceCreated;
    CreatedSnoc(h, a, max, a.key);
    FitIncremental(SinceCreated(h, max, a.key), a.entry, cap);
  }

  lemma NowHolds(s: Stream, h: seq<Append>, a: Append, max: nat, cap: int)
    requires s.Valid() && s.entries == Fit(SinceCreated(h + [a], max, a.key), cap)
    ensures Holds(s, h + [a], cap, max, a.key)
  {
  }

  lemma OtherContent(s: Stream, h: seq<Append>, a: Append, cap: int, max: nat, k: string)
    requires k in Live(h, max) && k != a.key && Holds(s, h, cap, max, k)
    ensures Holds(s, h + [a], cap, max, k)
  {
    hide Live, SinceCreated;
    CreatedSnoc(h, a, max, k);
    assert SinceCreated(h + [a], max, k) == SinceCreated(h, max, k);
  }

  lemma CreatedSnoc(h: seq<Append>, a: Append, max: nat, k: string)
    ensures SinceCreated(h + [a], max, k)
            == (if k in Live(h, max) then SinceCreated(h, max, k) else []) + (if a.key == k then [a.entry] else [])
  {
    assert (h + [a])[..|h|] == h;
  }

  function Newer(s: seq<Entry>, since: int): (r: seq<Entry>)
    ensures forall e :: e in r <==> e in s && e.seqNo > since
  {
    if s == [] then []
    else Newer(s[..|s| - 1], since) + (if s[|s| - 1].seqNo > since then [s[|s| - 1]] else [])
  }
}
