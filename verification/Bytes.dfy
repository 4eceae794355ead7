/** Bytes and fixed-width little-endian numbers (util/coding.h, util/crc32c.h). */
module Bytes {

  type byte = b: int | 0 <= b < 0x100
  type uint32 = n: int | 0 <= n < 0x1_0000_0000

  /** A checksum of bytes; the store uses CRC32C, which the proofs do not depend on. */
  type Checksum = seq<byte> -> uint32

  function Zeros(n: nat): (r: seq<byte>)
    ensures |r| == n
  {
    seq(n, _ => 0)
  }

  function EncodeFixed32(v: uint32): (r: seq<byte>)
    ensures |r| == 4
  {
    [v % 0x100, v / 0x100 % 0x100, v / 0x1_0000 % 0x100, v / 0x100_0000 % 0x100]
  }

  function DecodeFixed32(s: seq<byte>): uint32
    requires |s| >= 4
  {
    var b0: int, b1: int, b2: int, b3: int := s[0], s[1], s[2], s[3];
    b0 + b1 * 0x100 + b2 * 0x1_0000 + b3 * 0x100_0000
  }

  lemma Fixed32RoundTrip(v: uint32, rest: seq<byte>)
    ensures DecodeFixed32(EncodeFixed32(v) + rest) == v
  {
    var e := EncodeFixed32(v);
    assert forall i :: 0 <= i < 4 ==> (e + rest)[i] == e[i];
    FourDigits(v);
  }

  lemma FourDigits(v: uint32)
    ensures v == v % 0x100 + v / 0x100 % 0x100 * 0x100 + v / 0x1_0000 % 0x100 * 0x1_0000 + v / 0x100_0000 % 0x100 * 0x100_0000
  {
    var a: int, b: int, c: int := v / 0x100, v / 0x1_0000, v / 0x100_0000;
    assert b == a / 0x100 && c == b / 0x100;
  }

  const MASK_DELTA: uint32 := 0xa282ead8

  /** crc32c::Mask: rotate right by 15 bits and add a constant. */
  function Mask(crc: uint32): uint32 {
    (crc / 0x8000 + crc % 0x8000 * 0x2_0000 + MASK_DELTA) % 0x1_0000_0000
  }

  function Unmask(masked: uint32): uint32 {
    var rot := (masked - MASK_DELTA) % 0x1_0000_0000;
    (rot / 0x2_0000 + rot % 0x2_0000 * 0x8000) % 0x1_0000_0000
  }

  lemma UnmaskInvertsMask(crc: uint32)
    ensures Unmask(Mask(crc)) == crc
  {
    var high, low := crc / 0x8000, crc % 0x8000;
    var rot := high + low * 0x2_0000;
    assert 0 <= rot < 0x1_0000_0000;
    assert (Mask(crc) - MASK_DELTA) % 0x1_0000_0000 == rot;
    assert rot / 0x2_0000 == low && rot % 0x2_0000 == high;
  }

  lemma MaskedNumbers()
    ensures Mask(0) == 0xa282ead8 && Mask(1) == 0xa284ead8 && Mask(0x8000) == 0xa282ead9
  {
  }
}
