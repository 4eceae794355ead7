/** Varints: seven bits a byte, low bits first (util/coding.cc, util/coding.h). */
module Coding {
  import opened Bytes
  import opened DbFormat

  datatype Decoded = Decoded(value: nat, used: nat)

  function Varint(v: nat): (r: seq<byte>)
    ensures |r| >= 1
  {
    if v < 128 then [v] else [v % 128 + 128] + Varint(v / 128)
  }

  /** Reads a varint of at most `max` bytes from the front of `s`. */
  function DecodeVarint(s: seq<byte>, max: nat): (r: Option<Decoded>)
    ensures r.Some? ==> 0 < r.value.used <= |s|
  {
    if s == [] || max == 0 then None
    else if s[0] < 128 then Some(Decoded(s[0] as nat, 1))
    else
      match DecodeVarint(s[1..], max - 1)
      case None => None
      case Some(d) => Some(Decoded(s[0] as nat - 128 + 128 * d.value, d.used + 1))
  }

  /** What is read ends with the first byte below 128, and has at most `max` bytes. */
  lemma {:induction false} VarintEnds(s: seq<byte>, max: nat)
    ensures DecodeVarint(s, max).Some? ==>
      var n := DecodeVarint(s, max).value.used;
      n <= max && s[n - 1] < 128 && forall i :: 0 <= i < n - 1 ==> s[i] >= 128
  {
    if s != [] && max > 0 && s[0] >= 128 {
      VarintEnds(s[1..], max - 1);
      assert s == [s[0]] + s[1..];
    }
  }

  /** How many values `n` bytes can hold. */
  function Range(n: nat): nat {
    if n == 0 then 1 else 128 * Range(n - 1)
  }

  lemma {:induction false} VarintRoundTrip(v: nat, rest: seq<byte>, max: nat)
    requires max > 0 && v < Range(max)
    ensures |Varint(v)| <= max && DecodeVarint(Varint(v) + rest, max) == Some(Decoded(v, |Varint(v)|))
  {
    if v >= 128 {
      assert Range(1) == 128 * Range(0);
      VarintRoundTrip(v / 128, rest, max - 1);
      assert (Varint(v) + rest)[1..] == Varint(v / 128) + rest;
    }
  }

  lemma Range32()
    ensures 0x1_0000_0000 <= Range(5)
  {
    assert Range(5) == 128 * (128 * (128 * (128 * (128 * Range(0)))));
  }

  /** EncodeVarint32: one case for each length. */
  method EncodeVarint32(v: uint32) returns (r: seq<byte>)
    ensures r == Varint(v)
  {
    var a, b, c, d := v / 0x80, v / 0x4000, v / 0x20_0000, v / 0x1000_0000;
    assert b == a / 0x80 && c == b / 0x80 && d == c / 0x80;
    if v < 0x80 {
      r := [v];
    } else if v < 0x4000 {
      r := [v % 0x80 + 0x80, a];
    } else if v < 0x20_0000 {
      r := [v % 0x80 + 0x80, a % 0x80 + 0x80, b];
      assert Varint(a) == [a % 0x80 + 0x80] + Varint(b);
    } else if v < 0x1000_0000 {
      r := [v % 0x80 + 0x80, a % 0x80 + 0x80, b % 0x80 + 0x80, c];
      assert Varint(b) == [b % 0x80 + 0x80] + Varint(c);
      assert Varint(a) == [a % 0x80 + 0x80] + Varint(b);
    } else {
      r := [v % 0x80 + 0x80, a % 0x80 + 0x80, b % 0x80 + 0x80, c % 0x80 + 0x80, d];
      assert Varint(c) == [c % 0x80 + 0x80] + Varint(d);
      assert Varint(b) == [b % 0x80 + 0x80] + Varint(c);
      assert Varint(a) == [a % 0x80 + 0x80] + Varint(b);
    }
  }

  /** EncodeVarint64. */
  method EncodeVarint64(v: nat) returns (r: seq<byte>)
    ensures r == Varint(v)
  {
    var left := v;
    r := [];
    while left >= 128
      invariant r + Varint(left) == Varint(v)
    {
      r := r + [left % 128 + 128];
      left := left / 128;
    }
    r := r + [left];
  }

  /** The number that `s` stands for when the bits from `result` are already known. */
  ghost function Continued(result: nat, factor: nat, read: nat, d: Option<Decoded>): Option<Decoded> {
    if d.None? then None else Some(Decoded(result + factor * d.value.value, read + d.value.used))
  }

  /** A varint of at most five bytes, cut to 32 bits. */
  function DecodeVarint32(s: seq<byte>): (r: Option<Decoded>)
    ensures r.Some? ==> 0 < r.value.used <= |s| && r.value.value < 0x1_0000_0000
  {
    match DecodeVarint(s, 5)
    case None => None
    case Some(d) => Some(d.(value := d.value % 0x1_0000_0000))
  }

  lemma Varint32RoundTrip(v: nat, rest: seq<byte>)
    requires v < 0x1_0000_0000
    ensures DecodeVarint32(Varint(v) + rest) == Some(Decoded(v, |Varint(v)|))
  {
    Range32();
    VarintRoundTrip(v, rest, 5);
  }

  /** GetVarint32Ptr: bits that a fifth byte has above the lowest 32 are lost. */
  method GetVarint32(s: seq<byte>) returns (r: Option<Decoded>)
    ensures r == DecodeVarint32(s)
  {
    if s != [] && s[0] < 128 {
      return Some(Decoded(s[0] as nat, 1));
    }
    var result: nat, factor: nat := 0, 1;
    ghost var exact: nat := 0;
    var p := 0;
    while p < 5 && p < |s|
      invariant p <= 5 && p <= |s| && result == exact % 0x1_0000_0000
      invariant Continued(exact, factor, p, DecodeVarint(s[p..], 5 - p)) == DecodeVarint(s, 5)
    {
      var b := s[p];
      var bits := Bits(b, factor);
      OneByte(s, p, 5, exact, factor);
      Truncated(exact, bits);
      result, exact := (result + bits) % 0x1_0000_0000, exact + bits;
      p, factor := p + 1, 128 * factor;
      if b < 128 {
        return Some(Decoded(result, p));
      }
    }
    return None;
  }

  /** The seven bits of `b`, shifted. */
  function Bits(b: byte, factor: nat): nat {
    b % 0x80 * factor
  }

  lemma Truncated(exact: nat, more: nat)
    ensures (exact % 0x1_0000_0000 + more) % 0x1_0000_0000 == (exact + more) % 0x1_0000_0000
  {
  }

  lemma OneByte(s: seq<byte>, p: nat, max: nat, exact: nat, factor: nat)
    requires p < max && p < |s|
    ensures Continued(exact, factor, p, DecodeVarint(s[p..], max - p))
         == if s[p] < 0x80 then Some(Decoded(exact + Bits(s[p], factor), p + 1))
            else Continued(exact + Bits(s[p], factor), 128 * factor, p + 1, DecodeVarint(s[p + 1..], max - p - 1))
  {
    ReadOne(exact, factor, p, s[p..], max - p);
    assert s[p..][1..] == s[p + 1..];
    assert s[p] % 0x80 == if s[p] < 0x80 then s[p] else s[p] - 128;
  }

  lemma ReadOne(result: nat, factor: nat, read: nat, s: seq<byte>, max: nat)
    requires s != [] && max > 0
    ensures Continued(result, factor, read, DecodeVarint(s, max))
         == if s[0] < 128 then Some(Decoded(result + s[0] * factor, read + 1))
            else Continued(result + (s[0] - 128) * factor, factor * 128, read + 1, DecodeVarint(s[1..], max - 1))
  {
    var d := DecodeVarint(s[1..], max - 1);
    if s[0] >= 128 && d.Some? {
      Distribute(factor, s[0] - 128, d.value.value);
    }
  }

  lemma Distribute(factor: nat, low: nat, high: nat)
    ensures factor * (low + 128 * high) == low * factor + factor * 128 * high
  {
  }
}
