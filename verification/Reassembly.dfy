/** DTLS handshake reassembly: a bitmask of the bytes received (ssl/d1_both.cc; section 4.2.3 of
    RFC 6347). */
module Reassembly {
  import opened Bytes

  // ---- Bits of a byte

  /** The bit with weight 2 to the power `k`. */
  function Weight(k: nat): bv8
    requires k < 8
  {
    if k == 0 then 1 else if k == 1 then 2 else if k == 2 then 4 else if k == 3 then 8
    else if k == 4 then 16 else if k == 5 then 32 else if k == 6 then 64 else 128
  }

  predicate Bit(b: bv8, k: nat)
    requires k < 8
  {
    b & Weight(k) != 0
  }

  /** (1 << n) - 1, cut to a byte. */
  function Ones(n: nat): bv8
    requires n <= 8
  {
    (1 as bv8 << n) - 1
  }

  /** bit_range: bits `start`, inclusive, to `end`, exclusive. */
  function BitRange(start: nat, end: nat): bv8
    requires start <= 8 && end <= 8
  {
    !Ones(start) & Ones(end)
  }

  lemma OnesBits(n: nat, k: nat)
    requires n <= 8 && k < 8
    ensures Bit(Ones(n), k) <==> k < n
  {
    if n == 0 { assert Ones(0) == 0; }
    else if n == 1 { assert Ones(1) == 1; }
    else if n == 2 { assert Ones(2) == 3; }
    else if n == 3 { assert Ones(3) == 7; }
    else if n == 4 { assert Ones(4) == 15; }
    else if n == 5 { assert Ones(5) == 31; }
    else if n == 6 { assert Ones(6) == 63; }
    else if n == 7 { assert Ones(7) == 127; }
    else { assert Ones(8) == 255; }
  }

  lemma AndBits(a: bv8, b: bv8, k: nat)
    requires k < 8
    ensures Bit(a & b, k) <==> Bit(a, k) && Bit(b, k)
    ensures Bit(a | b, k) <==> Bit(a, k) || Bit(b, k)
    ensures Bit(!a, k) <==> !Bit(a, k)
  {
    SingleBit(a, b, Weight(k));
  }

  /** Two bytes under a mask of one bit. */
  lemma SingleBit(a: bv8, b: bv8, w: bv8)
    requires w == 1 || w == 2 || w == 4 || w == 8 || w == 16 || w == 32 || w == 64 || w == 128
    ensures (a & b) & w != 0 <==> a & w != 0 && b & w != 0
    ensures (a | b) & w != 0 <==> a & w != 0 || b & w != 0
    ensures !a & w != 0 <==> a & w == 0
  {
  }

  lemma BitRangeBits(start: nat, end: nat, k: nat)
    requires start <= 8 && end <= 8 && k < 8
    ensures Bit(BitRange(start, end), k) <==> start <= k < end
  {
    OnesBits(start, k);
    OnesBits(end, k);
    AndBits(!Ones(start), Ones(end), k);
    AndBits(Ones(start), Ones(end), k);
  }

  /** Bytes with the same bits are the same. */
  lemma SameBits(a: bv8, b: bv8)
    requires forall k: nat :: k < 8 ==> (Bit(a, k) <==> Bit(b, k))
    ensures a == b
  {
    assert Bit(a, 0) <==> Bit(b, 0);
    assert Bit(a, 1) <==> Bit(b, 1);
    assert Bit(a, 2) <==> Bit(b, 2);
    assert Bit(a, 3) <==> Bit(b, 3);
    assert Bit(a, 4) <==> Bit(b, 4);
    assert Bit(a, 5) <==> Bit(b, 5);
    assert Bit(a, 6) <==> Bit(b, 6);
    assert Bit(a, 7) <==> Bit(b, 7);
  }

  // ---- Bits of a mask

  predicate Got(mask: seq<bv8>, i: nat)
    requires i / 8 < |mask|
  {
    Bit(mask[i / 8], i % 8)
  }

  /** Byte `b` of a mask after marking positions `start` to `end - 1`. */
  ghost predicate ByteMarked(was: bv8, now: bv8, b: nat, start: nat, end: nat) {
    forall k: nat :: k < 8 ==> (Bit(now, k) <==> Bit(was, k) || start <= 8 * b + k < end)
  }

  lemma OrMarks(was: bv8, b: nat, from: nat, to: nat, start: nat, end: nat)
    requires from <= to <= 8
    requires forall k: nat {:trigger Bit(was, k)} :: k < 8 ==> (from <= k < to <==> start <= 8 * b + k < end)
    ensures ByteMarked(was, was | BitRange(from, to), b, start, end)
  {
    forall k: nat | k < 8
      ensures Bit(was | BitRange(from, to), k) <==> Bit(was, k) || start <= 8 * b + k < end
    {
      AndBits(was, BitRange(from, to), k);
      BitRangeBits(from, to, k);
      assert Bit(was, k) || !Bit(was, k);
    }
  }

  lemma FullMarks(was: bv8, b: nat, start: nat, end: nat)
    requires start <= 8 * b && 8 * b + 8 <= end
    ensures ByteMarked(was, 0xff, b, start, end)
  {
    assert Ones(8) == 0xff;
    forall k: nat | k < 8
      ensures Bit(0xff, k)
    {
      OnesBits(8, k);
    }
  }

  /** What marking a range makes of byte `b`. */
  function MarkedByte(was: bv8, b: nat, start: nat, end: nat): bv8 {
    var first, last := start / 8, end / 8;
    if b < first || last < b then was
    else if first == last then was | BitRange(start % 8, end % 8)
    else if b == first then was | BitRange(start % 8, 8)
    else if b < last then 0xff
    else if end % 8 != 0 then was | BitRange(0, end % 8)
    else was
  }

  /** It sets the bits of the range, and no others. */
  lemma MarkedByteBits(was: bv8, b: nat, start: nat, end: nat)
    requires start < end
    ensures ByteMarked(was, MarkedByte(was, b, start, end), b, start, end)
  {
    var first, last := start / 8, end / 8;
    if b < first || last < b || (b == last && first < last && end % 8 == 0) {
    } else if first == last {
      OrMarks(was, b, start % 8, end % 8, start, end);
    } else if b == first {
      OrMarks(was, b, start % 8, 8, start, end);
    } else if b < last {
      FullMarks(was, b, start, end);
    } else {
      OrMarks(was, b, 0, end % 8, start, end);
    }
  }

  /** The marking part of dtls1_hm_fragment_mark. */
  method MarkRange(mask: array<bv8>, start: nat, end: nat)
    requires start < end <= 8 * mask.Length
    modifies mask
    ensures forall b :: 0 <= b < mask.Length ==> mask[b] == MarkedByte(old(mask[b]), b, start, end)
  {
    var first, last := start / 8, end / 8;
    if first == last {
      mask[first] := mask[first] | BitRange(start % 8, end % 8);
    } else {
      mask[first] := mask[first] | BitRange(start % 8, 8);
      for i := first + 1 to last
        invariant forall b :: 0 <= b < mask.Length ==>
          mask[b] == if b < i then MarkedByte(old(mask[b]), b, start, end) else old(mask[b])
      {
        mask[i] := 0xff;
      }
      if end % 8 != 0 {
        mask[last] := mask[last] | BitRange(0, end % 8);
      }
    }
  }

  /** All positions of byte `b` below `n` are set. */
  lemma WholeByte(x: bv8, n: nat)
    requires n <= 8
    ensures x == BitRange(0, n) <==> forall k: nat :: k < 8 ==> (Bit(x, k) <==> k < n)
  {
    forall k: nat | k < 8
      ensures Bit(BitRange(0, n), k) <==> k < n
    {
      BitRangeBits(0, n, k);
    }
    if forall k: nat :: k < 8 ==> (Bit(x, k) <==> k < n) {
      SameBits(x, BitRange(0, n));
    }
  }

  /** Positions from `n` on are not set. */
  ghost predicate NothingBeyond(mask: seq<bv8>, n: nat) {
    forall i: nat :: n <= i && i / 8 < |mask| ==> !Got(mask, i)
  }

  ghost predicate AllGot(mask: seq<bv8>, n: nat)
    requires n <= 8 * |mask|
  {
    forall i: nat :: i < n ==> Got(mask, i)
  }

  lemma ByteOf(mask: seq<bv8>, b: nat, k: nat)
    requires b < |mask| && k < 8
    ensures Got(mask, 8 * b + k) <==> Bit(mask[b], k)
  {
    assert (8 * b + k) / 8 == b && (8 * b + k) % 8 == k;
  }

  /** The completeness test of dtls1_hm_fragment_mark. */
  method IsComplete(mask: array<bv8>, msgLen: nat) returns (r: bool)
    requires mask.Length == (msgLen + 7) / 8 && NothingBeyond(mask[..], msgLen)
    ensures r <==> AllGot(mask[..], msgLen)
  {
    assert Ones(0) == 0 && Ones(8) == 0xff;
    for i := 0 to msgLen / 8
      invariant forall j: nat :: j < 8 * i ==> Got(mask[..], j)
    {
      WholeByte(mask[i], 8);
      forall k: nat | k < 8
        ensures Got(mask[..], 8 * i + k) <==> Bit(mask[i], k)
      {
        ByteOf(mask[..], i, k);
      }
      if mask[i] != 0xff {
        return false;
      }
      forall j: nat | 8 * i <= j < 8 * (i + 1)
        ensures Got(mask[..], j)
      {
        ByteOf(mask[..], i, j - 8 * i);
      }
    }
    if msgLen % 8 != 0 {
      var last := msgLen / 8;
      WholeByte(mask[last], msgLen % 8);
      forall k: nat | k < 8
        ensures Got(mask[..], 8 * last + k) <==> Bit(mask[last], k)
      {
        ByteOf(mask[..], last, k);
      }
      if mask[last] != BitRange(0, msgLen % 8) {
        return false;
      }
      forall j: nat | 8 * last <= j < msgLen
        ensures Got(mask[..], j)
      {
        ByteOf(mask[..], last, j - 8 * last);
      }
    }
    return true;
  }
}
