/** Reading a finished block: a cursor over exactly the pairs that were added (table/block.cc). */
module BlockReader {
  import opened Bytes
  import opened Coding
  import opened Concatenation
  import opened DbFormat
  import opened BlockFormat

  const LIMIT: nat := 0x1_0000_0000

  // ---- DecodeEntry

  datatype Lengths = Lengths(shared: nat, nonShared: nat, valueLength: nat, used: nat)

  /** Three numbers, one after the other. */
  function DecodeThree(decode: Str -> Option<Decoded>, s: Str): Option<Lengths> {
    var a := decode(s);
    if a.None? || a.value.used > |s| then None
    else
      var b := decode(s[a.value.used..]);
      if b.None? || a.value.used + b.value.used > |s| then None
      else
        var c := decode(s[a.value.used + b.value.used..]);
        if c.None? || a.value.used + b.value.used + c.value.used > |s| then None
        else Some(Lengths(a.value.value, b.value.value, c.value.value, a.value.used + b.value.used + c.value.used))
  }

  function DecodeSlow(s: Str): Option<Lengths> {
    DecodeThree(DecodeVarint32, s)
  }

  /** DecodeEntry, with its fast path for three one-byte lengths. */
  function DecodeEntry(s: Str): (r: Option<Lengths>)
    ensures r.Some? ==> r.value.used + r.value.nonShared + r.value.valueLength <= |s|
  {
    if |s| < 3 then None
    else
      var lengths :=
        if s[0] < 128 && s[1] < 128 && s[2] < 128 then Some(Lengths(s[0] as nat, s[1] as nat, s[2] as nat, 3))
        else DecodeSlow(s);
      if lengths.None? || |s| - lengths.value.used < lengths.value.nonShared + lengths.value.valueLength then None
      else lengths
  }

  /** The fast path decodes what the slow path would. */
  lemma FastIsSlow(s: Str)
    requires |s| >= 3 && s[0] < 128 && s[1] < 128 && s[2] < 128
    ensures DecodeSlow(s) == Some(Lengths(s[0] as nat, s[1] as nat, s[2] as nat, 3))
  {
  }

  lemma SlowRoundTrip(a: nat, b: nat, c: nat, rest: Str)
    requires a < LIMIT && b < LIMIT && c < LIMIT
    ensures DecodeSlow(Header(a, b, c) + rest) == Some(Lengths(a, b, c, |Header(a, b, c)|))
  {
    var va, vb, vc := Varint(a), Varint(b), Varint(c);
    Varint32RoundTrip(a, vb + (vc + rest));
    Varint32RoundTrip(b, vc + rest);
    Varint32RoundTrip(c, rest);
    ThreeInARow(DecodeVarint32, Decoded(a, |va|), va, Decoded(b, |vb|), vb, Decoded(c, |vc|), vc, rest);
  }

  lemma ThreeInARow(decode: Str -> Option<Decoded>, a: Decoded, x: Str, b: Decoded, y: Str, c: Decoded, z: Str, rest: Str)
    requires decode(x + (y + (z + rest))) == Some(a) && a.used == |x|
    requires decode(y + (z + rest)) == Some(b) && b.used == |y|
    requires decode(z + rest) == Some(c) && c.used == |z|
    ensures DecodeThree(decode, x + y + z + rest) == Some(Lengths(a.value, b.value, c.value, |x + y + z|))
  {
    var s := x + y + z + rest;
    assert s == x + (y + (z + rest));
    assert s[|x|..] == y + (z + rest);
    assert s[|x| + |y|..] == z + rest;
  }

  /** Decoding a pair finds its lengths, and its key and value behind them. */
  lemma DecodePair(shared: nat, p: Pair, rest: Str)
    requires shared <= |p.key| && |p.key| < LIMIT && |p.value| < LIMIT
    ensures var s, k := EncodePair(shared, p) + rest, |p.key| - shared;
      var used := |Header(shared, k, |p.value|)|;
      && DecodeEntry(s) == Some(Lengths(shared, k, |p.value|, used))
      && used + k + |p.value| == |EncodePair(shared, p)|
      && s[used..used + k] == p.key[shared..] && s[used + k..used + k + |p.value|] == p.value
  {
    var k := |p.key| - shared;
    var header, tail := Header(shared, k, |p.value|), p.key[shared..];
    BehindHeader(header, tail, p.value, rest);
    SlowRoundTrip(shared, k, |p.value|, tail + p.value + rest);
    DecodeAgrees(EncodePair(shared, p) + rest, Lengths(shared, k, |p.value|, |header|));
  }

  lemma DecodeAgrees(s: Str, lengths: Lengths)
    requires DecodeSlow(s) == Some(lengths) && lengths.used + lengths.nonShared + lengths.valueLength <= |s| && |s| >= 3
    ensures DecodeEntry(s) == Some(lengths)
  {
    if s[0] < 128 && s[1] < 128 && s[2] < 128 {
      FastIsSlow(s);
    }
  }

  lemma BehindHeader(header: Str, tail: Str, value: Str, rest: Str)
    ensures var s := header + (tail + value) + rest;
      && s == header + (tail + value + rest)
      && s[|header|..|header| + |tail|] == tail && s[|header| + |tail|..|header| + |tail| + |value|] == value
  {
  }

  // ---- A finished block

  ghost predicate IsBlock(data: Str, es: seq<Pair>, interval: nat) {
    interval >= 1 && data == BlockBytes(es, interval) && |data| < LIMIT
  }

  /** Block::Block: where the restart array starts and how long it is, or nothing for bad contents. */
  function OpenBlock(data: Str): Option<(nat, nat)> {
    if |data| < 4 then None
    else
      var numRestarts := DecodeFixed32(data[|data| - 4..]);
      if numRestarts > (|data| - 4) / 4 then None else Some((|data| - (1 + numRestarts) * 4, numRestarts))
  }

  function RestartPoint(data: Str, restartsAt: nat, j: nat): nat
    requires restartsAt + 4 * j + 4 <= |data|
  {
    DecodeFixed32(data[restartsAt + 4 * j..])
  }

  lemma {:induction false} FixedLength(offsets: seq<nat>, n: nat)
    requires n <= |offsets|
    ensures |Concat(Fixed, offsets, n)| == 4 * n
  {
    if n > 0 {
      FixedLength(offsets, n - 1);
    }
  }

  lemma FixedRoundTrip(n: nat, rest: Str)
    requires n < LIMIT
    ensures DecodeFixed32(Fixed(n) + rest) == n
  {
    Fixed32RoundTrip(n, rest);
  }

  lemma OpenParts(pairs: Str, offsets: seq<nat>)
    requires |offsets| < LIMIT
    ensures OpenBlock(pairs + Trailer(offsets)) == Some((|pairs|, |offsets|))
    ensures |pairs + Trailer(offsets)| == |pairs| + 4 * |offsets| + 4
  {
    FixedLength(offsets, |offsets|);
    EndsWith(pairs, Concat(Fixed, offsets, |offsets|), Fixed(|offsets|));
    assert Fixed(|offsets|) + [] == Fixed(|offsets|);
    FixedRoundTrip(|offsets|, []);
  }

  lemma EndsWith(a: Str, b: Str, c: Str)
    ensures var s := a + (b + c); s[|s| - |c|..] == c && |s| == |a| + |b| + |c|
  {
  }

  /** Opening finds the restart array behind the pairs. */
  lemma OpensRight(data: Str, es: seq<Pair>, interval: nat)
    requires IsBlock(data, es, interval)
    ensures OpenBlock(data) == Some((Offset(Pieces(es, interval), |es|), |RestartOffsets(es, interval)|))
    ensures |data| == Offset(Pieces(es, interval), |es|) + 4 * |RestartOffsets(es, interval)| + 4
  {
    var offsets := RestartOffsets(es, interval);
    FixedLength(offsets, |offsets|);
    OpenParts(Data(Pieces(es, interval), |es|), offsets);
  }

  lemma ArrayReadsBack(pairs: Str, offsets: seq<nat>, j: nat)
    requires j < |offsets| && offsets[j] < LIMIT
    ensures |pairs| + 4 * j + 4 <= |pairs + Trailer(offsets)|
    ensures RestartPoint(pairs + Trailer(offsets), |pairs|, j) == offsets[j]
  {
    FixedLength(offsets, j);
    FixedLength(offsets, j + 1);
    FixedLength(offsets, |offsets|);
    PieceWithin(Fixed, offsets, |offsets|, j);
    SliceBehind(pairs, Concat(Fixed, offsets, |offsets|), Fixed(|offsets|), 4 * j, Fixed(offsets[j]));
    FixedRoundTrip(offsets[j], (pairs + Trailer(offsets))[|pairs| + 4 * j + 4..]);
  }

  lemma SliceBehind(a: Str, b: Str, c: Str, at: nat, piece: Str)
    requires at + |piece| <= |b| && b[at..at + |piece|] == piece
    ensures var s := a + (b + c); s[|a| + at..] == piece + s[|a| + at + |piece|..]
  {
    var s := a + (b + c);
    assert forall i :: 0 <= i < |piece| ==> piece[i] == b[at..at + |piece|][i] == s[|a| + at + i];
  }

  /** Each element of the array reads back as the offset of its pair. */
  lemma RestartReadsBack(data: Str, es: seq<Pair>, interval: nat, j: nat)
    requires IsBlock(data, es, interval) && j < |RestartOffsets(es, interval)|
    ensures var at := Offset(Pieces(es, interval), |es|);
      && at + 4 * j + 4 <= |data|
      && RestartPoint(data, at, j) == RestartOffsets(es, interval)[j]
  {
    OpensRight(data, es, interval);
    OffsetBelow(es, interval, j);
    ArrayReadsBack(Data(Pieces(es, interval), |es|), RestartOffsets(es, interval), j);
  }

  lemma OffsetBelow(es: seq<Pair>, interval: nat, j: nat)
    requires j < |RestartOffsets(es, interval)|
    ensures RestartOffsets(es, interval)[j] <= Offset(Pieces(es, interval), |es|)
  {
    RestartEntriesAscend(interval, |es|);
    OffsetsAscend(Pieces(es, interval), RestartEntries(interval, |es|)[j], |es|);
  }

  lemma {:induction false} OffsetsAscend(pieces: seq<Str>, a: nat, b: nat)
    requires a <= b <= |pieces|
    ensures Offset(pieces, a) <= Offset(pieces, b) && Data(pieces, a) <= Data(pieces, b)
    ensures (forall i :: a <= i < b ==> pieces[i] != []) && a < b ==> Offset(pieces, a) < Offset(pieces, b)
  {
    if a < b {
      OffsetsAscend(pieces, a, b - 1);
    }
  }

  lemma PiecesNotEmpty(es: seq<Pair>, interval: nat, i: nat)
    requires i < |es|
    ensures |Pieces(es, interval)[i]| >= 3
  {
  }

  lemma PieceAt(pieces: seq<Str>, i: nat) returns (rest: Str)
    requires i < |pieces|
    ensures Offset(pieces, i) <= Offset(pieces, |pieces|)
    ensures Data(pieces, |pieces|)[Offset(pieces, i)..] == pieces[i] + rest
    ensures Offset(pieces, i + 1) == Offset(pieces, i) + |pieces[i]| <= Offset(pieces, |pieces|)
  {
    PieceWithin(Same, pieces, |pieces|, i);
    OffsetsAscend(pieces, i + 1, |pieces|);
    var all := Data(pieces, |pieces|);
    rest := all[Offset(pieces, i + 1)..];
    CutTwice(all, Offset(pieces, i), Offset(pieces, i + 1));
  }

  lemma CutTwice(s: Str, a: nat, b: nat)
    requires a <= b <= |s|
    ensures s[a..] == s[a..b] + s[b..]
  {
  }
}
