/** Block::Iter: a cursor over exactly the pairs of a finished block (table/block.cc). */
module BlockIter {
  import opened Bytes
  import opened Coding
  import opened DbFormat
  import opened BlockFormat
  import opened BlockReader

  /** The rank of a key in the comparator's order. */
  type Rank = Str -> real

  // ---- What the iterator relies on

  /** Pair `i` decodes, given the key of the pair before it. */
  ghost predicate DecodesAt(data: Str, limit: nat, es: seq<Pair>, starts: seq<nat>, i: nat)
    requires i < |es| && |starts| == |es| + 1
  {
    && starts[i] < starts[i + 1] <= limit <= |data|
    && DecodeEntry(data[starts[i]..limit]).Some?
    && var l := DecodeEntry(data[starts[i]..limit]).value;
       var at := starts[i] + l.used;
       && l.shared <= |es[i].key| && l.nonShared == |es[i].key| - l.shared && l.valueLength == |es[i].value|
       && (l.shared > 0 ==> i > 0 && l.shared <= |es[i - 1].key| && es[i - 1].key[..l.shared] == es[i].key[..l.shared])
       && at + l.nonShared + l.valueLength == starts[i + 1]
       && data[at..at + l.nonShared] == es[i].key[l.shared..]
       && data[at + l.nonShared..starts[i + 1]] == es[i].value
  }

  ghost predicate PointAt(data: Str, limit: nat, es: seq<Pair>, starts: seq<nat>, points: seq<nat>, j: nat)
    requires j < |points| && |starts| == |es| + 1
  {
    && limit + 4 * j + 4 <= |data| && points[j] <= |es| && RestartPoint(data, limit, j) == starts[points[j]]
    && (points[j] < |es| || (es == [] && j == 0))
    && starts[points[j]] <= limit
    && var entry := DecodeEntry(data[starts[points[j]]..limit]);
       points[j] < |es| && entry.Some? ==> entry.value.shared == 0
  }

  /** Where the pairs start, and which of them are restart points. */
  datatype Layout = Layout(es: seq<Pair>, starts: seq<nat>, points: seq<nat>)

  ghost predicate LaidOut(data: Str, limit: nat, numRestarts: nat, l: Layout) {
    && |l.starts| == |l.es| + 1 && l.starts[|l.es|] == limit <= |data|
    && |l.points| == numRestarts >= 1 && l.points[0] == 0
    && (forall i, j :: 0 <= i < j < |l.points| ==> l.points[i] < l.points[j])
    && (forall i, j :: 0 <= i < j < |l.starts| ==> l.starts[i] < l.starts[j])
    && (forall i: nat :: i < |l.es| ==> DecodesAt(data, limit, l.es, l.starts, i))
    && (forall j: nat :: j < |l.points| ==> PointAt(data, limit, l.es, l.starts, l.points, j))
  }

  function LayoutOf(es: seq<Pair>, interval: nat): Layout {
    Layout(es, seq(|es| + 1, i requires 0 <= i <= |es| => Offset(Pieces(es, interval), i)), RestartEntries(interval, |es|))
  }

  /** A key is no longer than what has been written up to its end. */
  lemma {:induction false} KeyLengthUpTo(es: seq<Pair>, interval: nat, i: nat)
    requires i < |es|
    ensures |es[i].key| <= Offset(Pieces(es, interval), i + 1)
  {
    hide Varint, Counter;
    var rest := PieceAt(Pieces(es, interval), i);
    if i > 0 && !IsRestart(interval, i) {
      KeyLengthUpTo(es, interval, i - 1);
    }
  }

  lemma PairDecodes(data: Str, es: seq<Pair>, interval: nat, i: nat)
    requires IsBlock(data, es, interval) && i < |es|
    ensures var limit := Offset(Pieces(es, interval), |es|);
      && DecodesAt(data, limit, es, LayoutOf(es, interval).starts, i)
      && DecodeEntry(data[Offset(Pieces(es, interval), i)..limit]).value.shared == Shared(es, interval, i)
  {
    KeyLengthUpTo(es, interval, i);
    PiecesNotEmpty(es, interval, i);
    OpensRight(data, es, interval);
    PieceOfBlock(Pieces(es, interval), Trailer(RestartOffsets(es, interval)), i, Shared(es, interval, i), es[i]);
    FoundDecodes(data, Offset(Pieces(es, interval), |es|), es, LayoutOf(es, interval).starts, i, Shared(es, interval, i));
  }

  lemma FoundDecodes(data: Str, limit: nat, es: seq<Pair>, starts: seq<nat>, i: nat, shared: nat)
    requires i < |es| && |starts| == |es| + 1 && shared <= |es[i].key| && PieceFound(data, starts[i], limit, shared, es[i])
    requires starts[i + 1] == starts[i] + |EncodePair(shared, es[i])| && |EncodePair(shared, es[i])| > 0
    requires shared > 0 ==> i > 0 && shared <= |es[i - 1].key| && es[i - 1].key[..shared] == es[i].key[..shared]
    ensures DecodesAt(data, limit, es, starts, i)
  {
  }

  lemma PieceOfBlock(pieces: seq<Str>, trailer: Str, i: nat, shared: nat, p: Pair)
    requires i < |pieces| && shared <= |p.key| && pieces[i] == EncodePair(shared, p)
    requires |p.key| <= Offset(pieces, i + 1) && |Data(pieces, |pieces|) + trailer| < LIMIT
    ensures Offset(pieces, i + 1) == Offset(pieces, i) + |pieces[i]| <= Offset(pieces, |pieces|)
    ensures PieceFound(Data(pieces, |pieces|) + trailer, Offset(pieces, i), Offset(pieces, |pieces|), shared, p)
  {
    var rest := PieceAt(pieces, i);
    CutFront(Data(pieces, |pieces|), trailer, Offset(pieces, i));
    PieceDecodes(Data(pieces, |pieces|) + trailer, Offset(pieces, i), Offset(pieces, |pieces|), shared, p, rest);
  }

  lemma CutFront(a: Str, b: Str, at: nat)
    requires at <= |a|
    ensures (a + b)[at..|a|] == a[at..]
  {
  }

  lemma PieceDecodes(data: Str, start: nat, limit: nat, shared: nat, p: Pair, rest: Str)
    requires start <= limit <= |data| && shared <= |p.key| && |p.key| < LIMIT && |p.value| < LIMIT
    requires data[start..limit] == EncodePair(shared, p) + rest
    ensures PieceFound(data, start, limit, shared, p)
  {
    DecodePair(shared, p, rest);
    var k := |p.key| - shared;
    var used := |Header(shared, k, |p.value|)|;
    assert DecodeEntry(data[start..limit]) == Some(Lengths(shared, k, |p.value|, used));
    SliceOfSlice(data, start, limit, used, used + k);
    SliceOfSlice(data, start, limit, used + k, used + k + |p.value|);
  }

  /** The pair is decoded from the bytes between `start` and `limit`. */
  ghost predicate PieceFound(data: Str, start: nat, limit: nat, shared: nat, p: Pair)
    requires shared <= |p.key|
  {
    && start <= limit <= |data| && DecodeEntry(data[start..limit]).Some?
    && var l := DecodeEntry(data[start..limit]).value;
       var at := start + l.used;
       && l.shared == shared && l.nonShared == |p.key| - shared && l.valueLength == |p.value|
       && at + l.nonShared + l.valueLength == start + |EncodePair(shared, p)| <= limit
       && data[at..at + l.nonShared] == p.key[shared..]
       && data[at + l.nonShared..at + l.nonShared + l.valueLength] == p.value
  }

  lemma SliceOfSlice(data: Str, start: nat, limit: nat, a: nat, b: nat)
    requires start <= limit <= |data| && a <= b <= limit - start
    ensures data[start..limit][a..b] == data[start + a..start + b]
  {
    assert forall i :: 0 <= i < b - a ==> data[start..limit][a..b][i] == data[start + a + i];
  }

  /** Every finished block is laid out as the iterator needs it. */
  lemma BlockIsLaidOut(data: Str, es: seq<Pair>, interval: nat)
    requires IsBlock(data, es, interval)
    ensures OpenBlock(data).Some?
    ensures LaidOut(data, OpenBlock(data).value.0, OpenBlock(data).value.1, LayoutOf(es, interval))
  {
    OpensRight(data, es, interval);
    RestartEntriesAscend(interval, |es|);
    var l, limit := LayoutOf(es, interval), Offset(Pieces(es, interval), |es|);
    forall i, j | 0 <= i < j < |l.starts|
      ensures l.starts[i] < l.starts[j]
    {
      forall k | i <= k < j
        ensures Pieces(es, interval)[k] != []
      {
        PiecesNotEmpty(es, interval, k);
      }
      OffsetsAscend(Pieces(es, interval), i, j);
    }
    forall i: nat | i < |es|
      ensures DecodesAt(data, limit, es, l.starts, i)
    {
      PairDecodes(data, es, interval, i);
    }
    forall j: nat | j < |l.points|
      ensures PointAt(data, limit, es, l.starts, l.points, j)
    {
      RestartReadsBack(data, es, interval, j);
      if l.points[j] < |es| {
        PairDecodes(data, es, interval, l.points[j]);
      }
    }
  }

  // ---- The iterator

  /** Restart block `r` is where a scan from pair `i` backward begins: `i` is in it, or is the
      restart point right behind it. */
  ghost predicate InRestart(points: seq<nat>, r: nat, i: nat) {
    r < |points| && points[r] <= i && (r + 1 < |points| ==> i <= points[r + 1])
  }

  ghost predicate Increasing(es: seq<Pair>, rank: Rank) {
    forall i, j :: 0 <= i < j < |es| ==> rank(es[i].key) < rank(es[j].key)
  }

  /** `at` is the first pair at or after the target. */
  ghost predicate IsSeekPoint(es: seq<Pair>, rank: Rank, target: Str, at: nat) {
    && at <= |es| && (forall i :: 0 <= i < at ==> rank(es[i].key) < rank(target))
    && (at < |es| ==> rank(es[at].key) >= rank(target))
  }

  class Iter {
    const rank: Rank
    const data: Str
    const restarts: nat
    const numRestarts: nat
    ghost const l: Layout
    var current: nat
    var restartIndex: nat
    var key: Str
    var valueAt: nat
    var valueSize: nat
    ghost var at: nat

    ghost predicate Laid() {
      LaidOut(data, restarts, numRestarts, l)
    }

    ghost predicate Inv()
      reads this
    {
      && Laid() && Increasing(l.es, rank) && at <= |l.es|
      && if at == |l.es| then current == restarts
         else
           && current == l.starts[at] && key == l.es[at].key && valueAt + valueSize == l.starts[at + 1]
           && data[valueAt..valueAt + valueSize] == l.es[at].value && InRestart(l.points, restartIndex, at)
    }

    predicate Valid()
      reads this
    {
      current < restarts
    }

    /** The iterator can parse pair `p` next. */
    ghost predicate Ready(p: nat)
      requires Laid()
      reads this
    {
      && Increasing(l.es, rank) && p <= |l.es| && valueAt + valueSize == l.starts[p]
      && (p < |l.es| ==> restartIndex < numRestarts && l.points[restartIndex] <= p
                         && (l.points[restartIndex] == p || (p > 0 && key == l.es[p - 1].key)))
    }

    constructor (rank: Rank, data: Str, ghost es: seq<Pair>, ghost interval: nat)
      requires IsBlock(data, es, interval) && Increasing(es, rank)
      ensures Inv() && at == |es| && l.es == es && !Valid()
    {
      BlockIsLaidOut(data, es, interval);
      var parts := OpenBlock(data).value;
      this.rank, this.data, restarts, numRestarts := rank, data, parts.0, parts.1;
      l := LayoutOf(es, interval);
      current, restartIndex, key, valueAt, valueSize := parts.0, parts.1, [], 0, 0;
      at := |es|;
    }

    lemma AtIsValid()
      requires Inv()
      ensures Valid() <==> at < |l.es|
    {
      assert at < |l.es| ==> l.starts[at] < l.starts[|l.es|];
    }

    /** SeekToRestartPoint; `current` is fixed by the next parse. */
    method SeekToRestartPoint(index: nat)
      requires Laid() && Increasing(l.es, rank) && index < numRestarts
      modifies `key, `restartIndex, `valueAt, `valueSize
      ensures Ready(l.points[index]) && restartIndex == index
    {
      assert PointAt(data, restarts, l.es, l.starts, l.points, index);
      key := [];
      restartIndex := index;
      valueAt, valueSize := RestartPoint(data, restarts, index), 0;
    }

    method ParseNextKey(ghost p: nat) returns (ok: bool)
      requires Laid() && Ready(p)
      modifies this
      ensures Inv() && at == p && (ok <==> p < |l.es|)
    {
      hide DecodeEntry;
      at := p;
      current := valueAt + valueSize;
      StartsBeforeEnd(p);
      if current >= restarts {
        current, restartIndex := restarts, numRestarts;
        return false;
      }
      KnownPrefix(p);
      assert current == l.starts[p];
      var entry := DecodeEntry(data[current..restarts]);
      if entry.None? || |key| < entry.value.shared {
        // "bad entry in block": no finished block holds one
        assert false;
      }
      TakeEntry(entry.value);
      AdvanceRestart();
      return true;
    }

    lemma StartsBeforeEnd(p: nat)
      requires Laid() && p <= |l.es|
      ensures l.starts[p] < restarts <==> p < |l.es|
    {
    }

    /** The key of the last pair, or none at a restart point, supplies the shared prefix. */
    lemma KnownPrefix(p: nat)
      requires Laid() && Ready(p) && p < |l.es|
      ensures DecodesAt(data, restarts, l.es, l.starts, p)
      ensures var shared := DecodeEntry(data[l.starts[p]..restarts]).value.shared;
        shared <= |key| && key[..shared] == l.es[p].key[..shared]
    {
      assert DecodesAt(data, restarts, l.es, l.starts, p);
      assert PointAt(data, restarts, l.es, l.starts, l.points, restartIndex);
    }

    method TakeEntry(entry: Lengths)
      requires Laid() && at < |l.es| && current == l.starts[at] && DecodesAt(data, restarts, l.es, l.starts, at)
      requires DecodeEntry(data[current..restarts]) == Some(entry)
      requires entry.shared <= |key| && key[..entry.shared] == l.es[at].key[..entry.shared]
      modifies `key, `valueAt, `valueSize
      ensures key == l.es[at].key && valueAt + valueSize == l.starts[at + 1]
      ensures data[valueAt..valueAt + valueSize] == l.es[at].value
    {
      var p := current + entry.used;
      FillKey(key, l.es[at].key, entry.shared);
      key := key[..entry.shared] + data[p..p + entry.nonShared];
      valueAt, valueSize := p + entry.nonShared, entry.valueLength;
    }

    /** Keep the restart index below the current pair. */
    method AdvanceRestart()
      requires Laid() && at < |l.es| && current == l.starts[at] && restartIndex < numRestarts && l.points[restartIndex] <= at
      modifies `restartIndex
      ensures InRestart(l.points, restartIndex, at)
    {
      while restartIndex + 1 < numRestarts && RestartAt(restartIndex + 1) < current
        invariant restartIndex < numRestarts && l.points[restartIndex] <= at
        decreases numRestarts - restartIndex
      {
        BelowCurrent(restartIndex + 1);
        restartIndex := restartIndex + 1;
      }
      if restartIndex + 1 < numRestarts {
        BelowCurrent(restartIndex + 1);
      }
    }

    /** Comparing offsets compares pairs. */
    lemma BelowCurrent(j: nat)
      requires Laid() && at < |l.es| && current == l.starts[at] && j < numRestarts
      ensures RestartAt(j) < current <==> l.points[j] < at
    {
      assert PointAt(data, restarts, l.es, l.starts, l.points, j);
      assert l.points[j] < at ==> l.starts[l.points[j]] < l.starts[at];
      assert at < l.points[j] ==> l.starts[at] < l.starts[l.points[j]];
    }

    function RestartAt(j: nat): nat
      requires Laid() && j < numRestarts
    {
      assert PointAt(data, restarts, l.es, l.starts, l.points, j);
      RestartPoint(data, restarts, j)
    }

    method Next()
      requires Inv() && Valid()
      modifies this
      ensures Inv() && at == old(at) + 1
    {
      AtIsValid();
      var _ := ParseNextKey(at + 1);
    }

    /** Scan backward to a restart point before the current pair, then forward again. */
    method Prev()
      requires Inv() && Valid()
      modifies this
      ensures Inv() && at == if old(at) == 0 then |l.es| else old(at) - 1
    {
      AtIsValid();
      var original := current;
      while RestartAt(restartIndex) >= original
        invariant Inv() && at == old(at) < |l.es| && current == original && restartIndex < numRestarts
        invariant InRestart(l.points, restartIndex, at)
        decreases restartIndex
      {
        BelowCurrent(restartIndex);
        if restartIndex == 0 {
          current, restartIndex, at := restarts, numRestarts, |l.es|;
          return;
        }
        assert l.points[restartIndex - 1] < l.points[restartIndex];
        restartIndex := restartIndex - 1;
      }
      BelowCurrent(restartIndex);
      SeekToRestartPoint(restartIndex);
      ScanUpTo(original, l.points[restartIndex], at);
    }

    /** Parse until the end of the current pair hits `original`, the start of pair `end`. */
    method ScanUpTo(original: nat, ghost from: nat, ghost end: nat)
      requires Laid() && Ready(from) && from <= end <= |l.es| && original == l.starts[end]
      requires from == end ==> end == |l.es|
      modifies this
      ensures Inv() && at == if from < end then end - 1 else end
    {
      ghost var p := from;
      var more := ParseNextKey(p);
      while more && valueAt + valueSize < original
        invariant Inv() && at == p && (if more then p < end else p == from == end)
        decreases end - p
      {
        assert valueAt + valueSize == l.starts[p + 1];
        p := p + 1;
        more := ParseNextKey(p);
      }
      if more {
        ReachedEnd(p, end);
      }
    }

    lemma ReachedEnd(p: nat, end: nat)
      requires Laid() && p < end <= |l.es| && l.starts[p + 1] >= l.starts[end]
      ensures p + 1 == end
    {
    }

    /** Binary search in the restart array, then a scan within one restart block. */
    method Seek(target: Str)
      requires Inv()
      modifies this
      ensures Inv() && IsSeekPoint(l.es, rank, target, at)
    {
      var left, right := 0, numRestarts - 1;
      while left < right
        invariant 0 <= left <= right < numRestarts
        invariant left > 0 ==> KeyBelow(left, target)
      {
        var mid := (left + right + 1) / 2;
        RestartKey(mid);
        var offset := RestartAt(mid);
        var entry := DecodeEntry(data[offset..restarts]).value;
        var midKey := data[offset + entry.used..offset + entry.used + entry.nonShared];
        if rank(midKey) < rank(target) {
          left := mid;
        } else {
          right := mid - 1;
        }
      }
      SeekToRestartPoint(left);
      ghost var p := l.points[left];
      while true
        invariant Laid() && Ready(p) && (forall i :: 0 <= i < p ==> rank(l.es[i].key) < rank(target))
        decreases |l.es| - p
      {
        var more := ParseNextKey(p);
        if !more || rank(key) >= rank(target) {
          return;
        }
        p := p + 1;
      }
    }

    /** The key at restart point `j` is smaller than the target. */
    ghost predicate KeyBelow(j: nat, target: Str)
      requires Laid() && j < numRestarts
    {
      assert PointAt(data, restarts, l.es, l.starts, l.points, j);
      l.points[j] < |l.es| && rank(l.es[l.points[j]].key) < rank(target)
    }

    /** A restart point other than the first holds a whole key. */
    lemma RestartKey(j: nat)
      requires Laid() && 0 < j < numRestarts
      ensures RestartAt(j) < restarts && l.points[j] < |l.es| && DecodeEntry(data[RestartAt(j)..restarts]).Some?
      ensures var entry := DecodeEntry(data[RestartAt(j)..restarts]).value;
        && entry.shared == 0 && RestartAt(j) + entry.used + entry.nonShared <= restarts
        && data[RestartAt(j) + entry.used..RestartAt(j) + entry.used + entry.nonShared] == l.es[l.points[j]].key
    {
      assert PointAt(data, restarts, l.es, l.starts, l.points, j);
      assert DecodesAt(data, restarts, l.es, l.starts, l.points[j]);
    }

    method SeekToFirst()
      requires Inv()
      modifies this
      ensures Inv() && at == 0
    {
      SeekToRestartPoint(0);
      var _ := ParseNextKey(0);
    }

    method SeekToLast()
      requires Inv()
      modifies this
      ensures Inv() && at == if l.es == [] then 0 else |l.es| - 1
    {
      SeekToRestartPoint(numRestarts - 1);
      ghost var p := l.points[numRestarts - 1];
      assert PointAt(data, restarts, l.es, l.starts, l.points, numRestarts - 1);
      ScanUpTo(restarts, p, |l.es|);
    }
  }

  lemma FillKey(last: Str, key: Str, shared: nat)
    requires shared <= |last| && shared <= |key| && last[..shared] == key[..shared]
    ensures last[..shared] + key[shared..] == key
  {
  }
}
