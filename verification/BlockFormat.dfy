/** Blocks of key/value pairs with prefix-compressed keys and an array of restart points
    (table/block_builder.cc, table/block.cc). */
module BlockFormat {
  import opened Bytes
  import opened Coding
  import opened Concatenation
  import opened DbFormat

  type Str = seq<byte>

  datatype Pair = Pair(key: Str, value: Str)

  /** The length of the longest common prefix. */
  function CommonPrefix(a: Str, b: Str): (n: nat)
    ensures n <= |a| && n <= |b| && a[..n] == b[..n]
    ensures n < |a| && n < |b| ==> a[n] != b[n]
  {
    if a == [] || b == [] || a[0] != b[0] then 0
    else
      var n := CommonPrefix(a[1..], b[1..]);
      assert a[..n + 1] == [a[0]] + a[1..][..n] && b[..n + 1] == [b[0]] + b[1..][..n];
      n + 1
  }

  // ---- Restart points

  /** The builder's counter after `n` pairs: the pairs since the last restart point. */
  function Counter(interval: nat, n: nat): nat {
    if n == 0 then 0 else if Counter(interval, n - 1) == interval then 1 else Counter(interval, n - 1) + 1
  }

  /** Pair `i` stores its key in full. */
  predicate IsRestart(interval: nat, i: nat) {
    i == 0 || Counter(interval, i) == interval
  }

  /** Restart points come every `interval` pairs. */
  lemma {:induction false} RestartsAreRegular(interval: nat, n: nat) returns (q: nat)
    requires interval >= 1 && n > 0
    ensures n == q * interval + Counter(interval, n) && 1 <= Counter(interval, n) <= interval
    ensures IsRestart(interval, n) <==> n == (q + 1) * interval
  {
    if n == 1 {
      q := 0;
    } else {
      var p := RestartsAreRegular(interval, n - 1);
      q := if Counter(interval, n - 1) == interval then p + 1 else p;
      assert (p + 1) * interval == p * interval + interval;
    }
    assert (q + 1) * interval == q * interval + interval;
  }

  /** The pairs at which the first `n` pairs have a restart point. */
  function RestartEntries(interval: nat, n: nat): (r: seq<nat>)
    ensures |r| >= 1 && r[0] == 0
  {
    if n == 0 then [0]
    else RestartEntries(interval, n - 1) + if n > 1 && IsRestart(interval, n - 1) then [n - 1] else []
  }

  ghost predicate RestartsOK(interval: nat, n: nat, r: seq<nat>) {
    && (forall j :: 0 <= j < |r| ==> IsRestart(interval, r[j]) && (r[j] < n || r[j] == 0))
    && (forall i, j :: 0 <= i < j < |r| ==> r[i] < r[j])
  }

  lemma {:induction false} RestartEntriesAscend(interval: nat, n: nat)
    ensures RestartsOK(interval, n, RestartEntries(interval, n))
  {
    if n > 0 {
      RestartEntriesAscend(interval, n - 1);
      if n > 1 && IsRestart(interval, n - 1) {
        OneMoreRestart(interval, n, RestartEntries(interval, n - 1));
      }
    }
  }

  lemma OneMoreRestart(interval: nat, n: nat, r: seq<nat>)
    requires n > 1 && RestartsOK(interval, n - 1, r) && IsRestart(interval, n - 1)
    ensures RestartsOK(interval, n, r + [n - 1])
  {
  }

  // ---- The contents of a block

  /** Key bytes that pair `i` takes from the pair before it. */
  function Shared(es: seq<Pair>, interval: nat, i: nat): (n: nat)
    requires i < |es|
    ensures n <= |es[i].key|
  {
    if IsRestart(interval, i) then 0 else CommonPrefix(es[i - 1].key, es[i].key)
  }

  /** Between restart points a key takes from the one before it all that they have in common, and at a restart
      point nothing. */
  lemma SharesAllItCan(es: seq<Pair>, interval: nat, i: nat) returns (q: nat)
    requires 0 < i < |es| && interval >= 1
    ensures q * interval < i <= (q + 1) * interval
    ensures var n, before, key := Shared(es, interval, i), es[i - 1].key, es[i].key;
      if i == (q + 1) * interval then n == 0
      else n <= |key| && n <= |before| && key[..n] == before[..n] && (n < |key| && n < |before| ==> key[n] != before[n])
  {
    q := RestartsAreRegular(interval, i);
    assert (q + 1) * interval == q * interval + interval;
  }

  function Header(shared: nat, nonShared: nat, valueLength: nat): Str {
    Varint(shared) + Varint(nonShared) + Varint(valueLength)
  }

  function EncodePair(shared: nat, p: Pair): Str
    requires shared <= |p.key|
  {
    Header(shared, |p.key| - shared, |p.value|) + (p.key[shared..] + p.value)
  }

  function Pieces(es: seq<Pair>, interval: nat): seq<Str> {
    seq(|es|, i requires 0 <= i < |es| => EncodePair(Shared(es, interval, i), es[i]))
  }

  function Same(s: Str): Str { s }

  /** The encoding of the first `n` pairs. */
  function Data(pieces: seq<Str>, n: nat): Str
    requires n <= |pieces|
  {
    Concat(Same, pieces, n)
  }

  /** Where pair `n` starts. */
  function Offset(pieces: seq<Str>, n: nat): nat
    requires n <= |pieces|
  {
    |Data(pieces, n)|
  }

  function RestartOffsets(es: seq<Pair>, interval: nat): seq<nat> {
    RestartEntriesAscend(interval, |es|);
    var r := RestartEntries(interval, |es|);
    seq(|r|, j requires 0 <= j < |r| => Offset(Pieces(es, interval), r[j]))
  }

  /** A number cut to 32 bits and written in four bytes. */
  function Fixed(n: nat): Str {
    EncodeFixed32(n % 0x1_0000_0000)
  }

  function Trailer(offsets: seq<nat>): Str {
    Concat(Fixed, offsets, |offsets|) + Fixed(|offsets|)
  }

  /** The finished block. */
  function BlockBytes(es: seq<Pair>, interval: nat): Str {
    Data(Pieces(es, interval), |es|) + Trailer(RestartOffsets(es, interval))
  }

  lemma ThreePieces(a: Str, b: Str, c: Str)
    ensures Data([a, b, c], 0) == [] && Data([a, b, c], 2) == a + b && Data([a, b, c], 3) == a + b + c
  {
    assert Data([a, b, c], 1) == Data([a, b, c], 0) + a;
    assert Data([a, b, c], 2) == Data([a, b, c], 1) + b;
    assert Data([a, b, c], 3) == Data([a, b, c], 2) + c;
  }

  const THREE_PAIRS := [Pair([97, 98], [1]), Pair([97, 99], [2]), Pair([97, 100], [])]

  lemma PiecesOfThree()
    ensures Pieces(THREE_PAIRS, 2) == [[0, 2, 1, 97, 98, 1], [1, 1, 1, 99, 2], [0, 2, 0, 97, 100]]
    ensures RestartEntries(2, 3) == [0, 2]
  {
    hide Concat;
    assert CommonPrefix([98], [99]) == 0;
    assert Counter(2, 1) == 1 && Counter(2, 2) == 2;
    assert EncodePair(0, THREE_PAIRS[0]) == [0, 2, 1, 97, 98, 1];
    assert EncodePair(1, THREE_PAIRS[1]) == [1, 1, 1, 99, 2];
    assert EncodePair(0, THREE_PAIRS[2]) == [0, 2, 0, 97, 100];
    assert RestartEntries(2, 1) == [0] && RestartEntries(2, 2) == [0];
  }

  /** Two keys with a common byte, and a third at a restart point. */
  lemma BytesOfBlock()
    ensures BlockBytes(THREE_PAIRS, 2)
         == [0, 2, 1, 97, 98, 1,   1, 1, 1, 99, 2,   0, 2, 0, 97, 100,   0, 0, 0, 0,   11, 0, 0, 0,   2, 0, 0, 0]
  {
    hide Pieces, Data, RestartEntries, Concat, Fixed, Trailer;
    PiecesOfThree();
    ThreePieces([0, 2, 1, 97, 98, 1], [1, 1, 1, 99, 2], [0, 2, 0, 97, 100]);
    assert RestartOffsets(THREE_PAIRS, 2) == [0, 11];
    TrailerOfTwo();
  }

  lemma TrailerOfTwo()
    ensures Trailer([0, 11]) == [0, 0, 0, 0, 11, 0, 0, 0, 2, 0, 0, 0]
  {
    assert Concat(Fixed, [0, 11], 1) == Concat(Fixed, [0, 11], 0) + Fixed(0);
    assert Fixed(11) == [11, 0, 0, 0] && Fixed(0) == [0, 0, 0, 0] && Fixed(2) == [2, 0, 0, 0];
  }

  // ---- The builder

  /** The state of a builder that has been given `es`. */
  ghost predicate Holds(es: seq<Pair>, interval: nat, buffer: Str, restarts: seq<nat>, counter: nat, lastKey: Str) {
    && buffer == Data(Pieces(es, interval), |es|) && restarts == RestartOffsets(es, interval)
    && counter == Counter(interval, |es|) && lastKey == if es == [] then [] else es[|es| - 1].key
  }

  /** What a builder's fields say about the pairs given to it. */
  type Content = (seq<Pair>, Str, seq<nat>, nat, Str) -> bool

  ghost function ContentOf(interval: nat): Content {
    (es: seq<Pair>, buffer: Str, restarts: seq<nat>, counter: nat, lastKey: Str) =>
      Holds(es, interval, buffer, restarts, counter, lastKey)
  }

  /** `holds` accepts the state after one more pair. */
  ghost predicate Grown(holds: Content, p: Pair, interval: nat, es: seq<Pair>, buffer: Str, restarts: seq<nat>, counter: nat, lastKey: Str) {
    if counter < interval then
      holds(es + [p], buffer + EncodePair(CommonPrefix(lastKey, p.key), p), restarts, counter + 1, p.key)
    else holds(es + [p], buffer + EncodePair(0, p), restarts + [|buffer|], 1, p.key)
  }

  /** Adding a pair shares with the last key, or starts anew when the counter has run up. */
  lemma HoldsNext(es: seq<Pair>, p: Pair, interval: nat, buffer: Str, restarts: seq<nat>, counter: nat, lastKey: Str)
    requires interval >= 1 && Holds(es, interval, buffer, restarts, counter, lastKey)
    ensures Grown(ContentOf(interval), p, interval, es, buffer, restarts, counter, lastKey)
  {
    hide Data, Pieces, RestartOffsets, EncodePair, CommonPrefix;
    AddedPiece(es, p, interval);
    AddedRestart(es, p, interval);
    CounterBound(interval, |es|);
  }

  class BlockBuilder {
    const interval: nat
    var buffer: Str
    var restarts: seq<nat>
    var counter: nat
    var lastKey: Str
    var finished: bool
    ghost var entries: seq<Pair>

    ghost predicate Valid()
      reads this
    {
      && interval >= 1
      && if finished then buffer == BlockBytes(entries, interval) else Holds(entries, interval, buffer, restarts, counter, lastKey)
    }

    constructor (interval: nat)
      requires interval >= 1
      ensures Valid() && !finished && entries == [] && this.interval == interval
    {
      this.interval := interval;
      buffer, restarts, counter, lastKey, finished, entries := [], [0], 0, [], false, [];
    }

    method Reset()
      requires Valid()
      modifies this
      ensures Valid() && !finished && entries == []
    {
      buffer, restarts, counter, finished, lastKey, entries := [], [0], 0, false, [], [];
    }

    /** How much of the key to share with the previous one. */
    method SharedLength(key: Str) returns (shared: nat)
      ensures shared == CommonPrefix(lastKey, key)
    {
      shared := 0;
      while shared < |lastKey| && shared < |key| && lastKey[shared] == key[shared]
        invariant shared <= |lastKey| && shared <= |key| && lastKey[..shared] == key[..shared]
      {
        assert lastKey[..shared + 1] == lastKey[..shared] + [lastKey[shared]];
        assert key[..shared + 1] == key[..shared] + [key[shared]];
        shared := shared + 1;
      }
      PrefixIsUnique(lastKey, key, shared);
    }

    method Add(key: Str, value: Str)
      requires Valid() && !finished
      modifies this
      ensures Valid() && !finished && entries == old(entries) + [Pair(key, value)]
    {
      HoldsNext(entries, Pair(key, value), interval, buffer, restarts, counter, lastKey);
      AddTo(key, value, ContentOf(interval));
    }

    method AddTo(key: Str, value: Str, ghost holds: Content)
      requires Grown(holds, Pair(key, value), interval, entries, buffer, restarts, counter, lastKey)
      modifies `buffer, `restarts, `counter, `lastKey, `entries
      ensures holds(entries, buffer, restarts, counter, lastKey) && entries == old(entries) + [Pair(key, value)]
    {
      var shared := 0;
      if counter < interval {
        shared := SharedLength(key);
      } else {
        restarts := restarts + [|buffer|];
        counter := 0;
      }
      AppendPair(shared, key, value);
      KeyFromPrefix(lastKey, key, shared);
      lastKey := lastKey[..shared] + key[shared..];
      counter := counter + 1;
      entries := entries + [Pair(key, value)];
    }

    /** Append the lengths, the key without what it shares with the previous one, and the value. */
    method AppendPair(shared: nat, key: Str, value: Str)
      requires shared <= |key|
      modifies `buffer
      ensures buffer == old(buffer) + EncodePair(shared, Pair(key, value))
    {
      var nonShared := |key| - shared;
      buffer := buffer + (Header(shared, nonShared, |value|) + (key[shared..] + value));
    }

    method Finish() returns (block: Str)
      requires Valid() && !finished
      modifies this
      ensures Valid() && finished && entries == old(entries) && block == BlockBytes(entries, interval)
    {
      ghost var data, offsets := buffer, restarts;
      AppendFixed(offsets);
      Assoc(data, Concat(Fixed, offsets, |offsets|), Fixed(|offsets|));
      buffer := buffer + Fixed(|restarts|);
      finished := true;
      block := buffer;
    }

    /** Append the restart array. */
    method AppendFixed(ghost offsets: seq<nat>)
      requires offsets == restarts
      modifies `buffer
      ensures buffer == old(buffer) + Concat(Fixed, offsets, |offsets|)
    {
      for i := 0 to |restarts|
        invariant buffer == old(buffer) + Concat(Fixed, offsets, i)
      {
        Assoc(old(buffer), Concat(Fixed, offsets, i), Fixed(offsets[i]));
        buffer := buffer + Fixed(restarts[i]);
      }
    }
  }

  lemma KeyFromPrefix(last: Str, key: Str, shared: nat)
    requires shared <= |last| && shared <= |key| && last[..shared] == key[..shared]
    ensures last[..shared] + key[shared..] == key
  {
  }

  lemma PrefixIsUnique(a: Str, b: Str, n: nat)
    requires n <= |a| && n <= |b| && a[..n] == b[..n]
    requires n < |a| && n < |b| ==> a[n] != b[n]
    ensures n == CommonPrefix(a, b)
  {
    SameWithinPrefix(a, b, CommonPrefix(a, b), n);
    SameWithinPrefix(a, b, n, CommonPrefix(a, b));
  }

  lemma SameWithinPrefix(a: Str, b: Str, m: nat, i: nat)
    requires m <= |a| && m <= |b| && a[..m] == b[..m]
    ensures i < m ==> a[i] == b[i]
  {
    assert i < m ==> a[i] == a[..m][i] && b[i] == b[..m][i];
  }

  lemma {:induction false} CounterBound(interval: nat, n: nat)
    requires interval >= 1
    ensures Counter(interval, n) <= interval && (n > 0 ==> Counter(interval, n) > 0)
  {
    if n > 0 {
      CounterBound(interval, n - 1);
    }
  }

  /** Adding a pair appends its piece. */
  lemma AddedPiece(es: seq<Pair>, p: Pair, interval: nat)
    ensures var n, more := |es|, es + [p];
      && Pieces(more, interval) == Pieces(es, interval) + [EncodePair(Shared(more, interval, n), p)]
      && Data(Pieces(more, interval), n + 1)
         == Data(Pieces(es, interval), n) + EncodePair(Shared(more, interval, n), p)
  {
    var n, more := |es|, es + [p];
    var before, piece := Pieces(es, interval), EncodePair(Shared(more, interval, n), p);
    assert Pieces(more, interval) == before + [piece];
    ConcatPrefix(Same, before, [piece], n);
  }

  /** Adding a pair adds its offset if it is a restart point. */
  lemma AddedRestart(es: seq<Pair>, p: Pair, interval: nat)
    ensures var n := |es|;
      RestartOffsets(es + [p], interval)
         == RestartOffsets(es, interval) + if n > 0 && IsRestart(interval, n) then [Offset(Pieces(es, interval), n)] else []
  {
    var n := |es|;
    AddedPiece(es, p, interval);
    var before, after := Pieces(es, interval), Pieces(es + [p], interval);
    var piece := after[n];
    RestartEntriesAscend(interval, n);
    RestartEntriesAscend(interval, n + 1);
    forall k | 0 <= k <= n
      ensures Offset(after, k) == Offset(before, k)
    {
      ConcatPrefix(Same, before, [piece], k);
    }
    var r := RestartEntries(interval, n);
    assert forall j :: 0 <= j < |r| ==> r[j] <= n;
  }
}
