/** The Bloom filter policy (util/bloom.cc). The hash function is not looked into. */
module Bloom {
  import opened Bytes
  import opened Reassembly
  import FilterBlock

  type Str = seq<byte>
  type Hash = Str -> uint32

  const WORD: nat := 0x1_0000_0000

  /** (h >> 17) | (h << 15) on 32 bits. */
  function Delta(h: uint32): uint32 {
    h / 0x2_0000 + h % 0x2_0000 * 0x8000
  }

  /** The hash value of probe `j`: double hashing on 32 bits. */
  function Probe(h: uint32, j: nat): uint32 {
    if j == 0 then h else (Probe(h, j - 1) + Delta(h)) % WORD
  }

  predicate BitSet(bits: seq<bv8>, pos: nat) {
    pos / 8 < |bits| && Got(bits, pos)
  }

  /** All probes of the key hit a set bit. */
  predicate Hits(bits: seq<bv8>, h: uint32, k: nat) {
    bits != [] && forall j: nat :: j < k ==> BitSet(bits, Probe(h, j) % (8 * |bits|))
  }

  /** The bits of `a` are set in `b`. */
  ghost predicate Subset(a: seq<bv8>, b: seq<bv8>) {
    |a| == |b| && forall i: nat :: BitSet(a, i) ==> BitSet(b, i)
  }

  lemma HitsStay(a: seq<bv8>, b: seq<bv8>, h: uint32, k: nat)
    requires Hits(a, h, k) && Subset(a, b)
    ensures Hits(b, h, k)
  {
    forall j: nat | j < k
      ensures BitSet(b, Probe(h, j) % (8 * |b|))
    {
      assert BitSet(a, Probe(h, j) % (8 * |a|));
    }
  }

  function SetAt(bits: seq<bv8>, pos: nat): (r: seq<bv8>)
    requires pos / 8 < |bits|
    ensures |r| == |bits|
  {
    bits[pos / 8 := bits[pos / 8] | Weight(pos % 8)]
  }

  lemma SetBit(bits: seq<bv8>, pos: nat)
    requires pos / 8 < |bits|
    ensures Subset(bits, SetAt(bits, pos)) && BitSet(SetAt(bits, pos), pos)
  {
    var now := SetAt(bits, pos);
    forall i: nat | BitSet(bits, i)
      ensures BitSet(now, i)
    {
      if i / 8 == pos / 8 {
        SingleBit(bits[i / 8], Weight(pos % 8), Weight(i % 8));
      }
    }
    SingleBit(bits[pos / 8], Weight(pos % 8), Weight(pos % 8));
    assert Weight(pos % 8) & Weight(pos % 8) != 0 by {
      assert Weight(pos % 8) & Weight(pos % 8) == Weight(pos % 8);
    }
  }

  // ---- Filters as byte strings

  function ToBytes(bits: seq<bv8>): (r: Str)
    ensures |r| == |bits|
  {
    seq(|bits|, i requires 0 <= i < |bits| => bits[i] as byte)
  }

  function ToBits(s: Str): (r: seq<bv8>)
    ensures |r| == |s|
  {
    seq(|s|, i requires 0 <= i < |s| => s[i] as bv8)
  }

  lemma BitsOfBytes(bits: seq<bv8>)
    ensures ToBits(ToBytes(bits)) == bits
  {
  }

  /** The bits after the first `k` probes of a key. */
  function WithKey(bits: seq<bv8>, h0: uint32, k: nat): (r: seq<bv8>)
    requires bits != []
    ensures |r| == |bits|
  {
    if k == 0 then bits else SetAt(WithKey(bits, h0, k - 1), Probe(h0, k - 1) % (8 * |bits|))
  }

  /** How many bytes of bits there are for `n` keys. */
  function Size(n: nat, bitsPerKey: nat): (r: nat)
    ensures r >= 8
  {
    var bits := n * bitsPerKey;
    ((if bits < 64 then 64 else bits) + 7) / 8
  }

  /** The bits for the first `n` keys. */
  function WithKeys(hash: Hash, k: nat, keys: seq<Str>, n: nat, size: nat): (r: seq<bv8>)
    requires n <= |keys| && size > 0
    ensures |r| == size
  {
    if n == 0 then seq(size, _ => 0) else WithKey(WithKeys(hash, k, keys, n - 1, size), hash(keys[n - 1]), k)
  }

  /** The filter for `keys`: the bits, and a last byte with the number of probes. */
  function FilterFor(hash: Hash, bitsPerKey: nat, k: byte, keys: seq<Str>): Str {
    ToBytes(WithKeys(hash, k, keys, |keys|, Size(|keys|, bitsPerKey))) + [k]
  }

  /** A filter is read back with the number of probes that it was written with. Numbers above 30 are
      reserved, and match. */
  predicate Matches(hash: Hash, key: Str, filter: Str) {
    |filter| >= 2 &&
    var k, bits := filter[|filter| - 1], ToBits(filter[..|filter| - 1]);
    k > 30 || Hits(bits, hash(key), k)
  }

  lemma {:induction false} KeyHits(bits: seq<bv8>, h0: uint32, k: nat)
    requires bits != []
    ensures Subset(bits, WithKey(bits, h0, k)) && Hits(WithKey(bits, h0, k), h0, k)
  {
    if k > 0 {
      KeyHits(bits, h0, k - 1);
      var was, pos := WithKey(bits, h0, k - 1), Probe(h0, k - 1) % (8 * |bits|);
      SetBit(was, pos);
      HitsStay(was, WithKey(bits, h0, k), h0, k - 1);
    }
  }

  lemma {:induction false} KeysHit(hash: Hash, k: nat, keys: seq<Str>, n: nat, size: nat)
    requires n <= |keys| && size > 0
    ensures forall key :: key in keys[..n] ==> Hits(WithKeys(hash, k, keys, n, size), hash(key), k)
  {
    if n > 0 {
      KeysHit(hash, k, keys, n - 1, size);
      var was, now := WithKeys(hash, k, keys, n - 1, size), WithKeys(hash, k, keys, n, size);
      KeyHits(was, hash(keys[n - 1]), k);
      assert keys[..n] == keys[..n - 1] + [keys[n - 1]];
      forall key | key in keys[..n]
        ensures Hits(now, hash(key), k)
      {
        if key in keys[..n - 1] {
          HitsStay(was, now, hash(key), k);
        }
      }
    }
  }

  /** One of the probes of the first `n` keys hits this bit. */
  ghost predicate Probed(hash: Hash, k: nat, keys: seq<Str>, n: nat, size: nat, pos: nat)
    requires n <= |keys| && size > 0
  {
    exists i: nat :: i < n && ProbedBy(hash(keys[i]), k, size, pos)
  }

  lemma OneBitSet(bits: seq<bv8>, at: nat, pos: nat)
    requires at / 8 < |bits|
    ensures BitSet(SetAt(bits, at), pos) <==> BitSet(bits, pos) || pos == at
  {
    SetBit(bits, at);
    if pos / 8 == at / 8 && pos != at {
      SingleBit(bits[pos / 8], Weight(at % 8), Weight(pos % 8));
      OtherWeight(at % 8, pos % 8);
    }
  }

  lemma OtherWeight(a: nat, b: nat)
    requires a < 8 && b < 8 && a != b
    ensures Weight(a) & Weight(b) == 0
  {
  }

  /** One of the first `k` probes of a key hits this bit. */
  ghost predicate ProbedBy(h0: uint32, k: nat, size: nat, pos: nat)
    requires size > 0
  {
    exists j: nat :: j < k && Probe(h0, j) % (8 * size) == pos
  }

  lemma {:induction false} KeyBits(bits: seq<bv8>, h0: uint32, k: nat, pos: nat)
    requires bits != []
    ensures BitSet(WithKey(bits, h0, k), pos) <==> BitSet(bits, pos) || ProbedBy(h0, k, |bits|, pos)
  {
    hide Probe, BitSet, SetAt;
    if k > 0 {
      KeyBits(bits, h0, k - 1, pos);
      OneBitSet(WithKey(bits, h0, k - 1), Probe(h0, k - 1) % (8 * |bits|), pos);
      assert ProbedBy(h0, k, |bits|, pos) <==> ProbedBy(h0, k - 1, |bits|, pos) || Probe(h0, k - 1) % (8 * |bits|) == pos;
    }
  }

  /** A filter has no bit that no probe of a key hits. */
  lemma {:induction false} OnlyProbesAreSet(hash: Hash, k: nat, keys: seq<Str>, n: nat, size: nat, pos: nat)
    requires n <= |keys| && size > 0
    ensures BitSet(WithKeys(hash, k, keys, n, size), pos) <==> Probed(hash, k, keys, n, size, pos)
  {
    hide ProbedBy, Probe, WithKey;
    if n == 0 {
      NoBit(size, pos);
    } else {
      OnlyProbesAreSet(hash, k, keys, n - 1, size, pos);
      KeyBits(WithKeys(hash, k, keys, n - 1, size), hash(keys[n - 1]), k, pos);
      assert Probed(hash, k, keys, n, size, pos)
        <==> Probed(hash, k, keys, n - 1, size, pos) || ProbedBy(hash(keys[n - 1]), k, size, pos);
    }
  }

  lemma NoBit(size: nat, pos: nat)
    ensures !BitSet(seq(size, _ => 0), pos)
  {
  }

  /** Probe `j` is `j` rotations behind the hash value, on 32 bits. */
  lemma {:induction false} ProbesAreEquallySpaced(h: uint32, j: nat)
    ensures Probe(h, j) == (h + j * Delta(h)) % 0x1_0000_0000
  {
    if j > 0 {
      ProbesAreEquallySpaced(h, j - 1);
      OneMoreStep(h, j, Delta(h));
    }
  }

  lemma OneMoreStep(h: nat, j: nat, d: nat)
    requires j > 0
    ensures ((h + (j - 1) * d) % WORD + d) % WORD == (h + j * d) % WORD
  {
    var sum := (j - 1) * d;
    assert sum + d == j * d;
    SumOfRest(h + sum, d);
  }

  lemma SumOfRest(a: int, d: nat)
    ensures (a % WORD + d) % WORD == (a + d) % WORD
  {
  }

  /** Three rotations, and the sizes of three filters at ten bits a key. */
  lemma FilterNumbers()
    ensures Delta(1) == 0x8000 && Delta(0x2_0000) == 1 && Delta(0xFFFE_0001) == 0xFFFF
    ensures Size(0, 10) == 8 && Size(7, 10) == 9 && Size(1000, 10) == 1250
  {
  }

  /** A filter matches each of its keys. */
  lemma OwnKeysMatch(hash: Hash, bitsPerKey: nat, k: byte, keys: seq<Str>, key: Str)
    requires key in keys
    ensures Matches(hash, key, FilterFor(hash, bitsPerKey, k, keys))
  {
    var size := Size(|keys|, bitsPerKey);
    KeysHit(hash, k, keys, |keys|, size);
    var bits := WithKeys(hash, k, keys, |keys|, size);
    assert keys[..|keys|] == keys;
    assert (ToBytes(bits) + [k])[..size] == ToBytes(bits);
    BitsOfBytes(bits);
  }

  function Policy(hash: Hash, bitsPerKey: nat, k: byte): FilterBlock.Policy {
    FilterBlock.Policy(keys => FilterFor(hash, bitsPerKey, k, keys), (key, filter) => Matches(hash, key, filter))
  }

  /** The Bloom filter is a policy as the filter block needs it. */
  lemma PolicyIsOK(hash: Hash, bitsPerKey: nat, k: byte)
    ensures FilterBlock.PolicyOK(Policy(hash, bitsPerKey, k))
  {
    forall keys: seq<Str>, key: Str | key in keys
      ensures Matches(hash, key, FilterFor(hash, bitsPerKey, k, keys))
    {
      OwnKeysMatch(hash, bitsPerKey, k, keys, key);
    }
  }

  // ---- The policy

  /** Set the bits of one key. */
  method AddKey(bits: array<bv8>, h0: uint32, k: nat)
    requires bits.Length > 0
    modifies bits
    ensures bits[..] == WithKey(old(bits[..]), h0, k)
  {
    var h := h0;
    var delta := Delta(h0);
    for j := 0 to k
      invariant h == Probe(h0, j) && bits[..] == WithKey(old(bits[..]), h0, j)
    {
      var bitpos := h % (8 * bits.Length);
      assert bitpos / 8 < bits.Length;
      ghost var was := bits[..];
      bits[bitpos / 8] := bits[bitpos / 8] | Weight(bitpos % 8);
      assert bits[..] == SetAt(was, bitpos);
      h := (h + delta) % WORD;
    }
  }

  /** BloomFilterPolicy::CreateFilter. */
  method CreateFilter(hash: Hash, bitsPerKey: nat, k: byte, keys: seq<Str>) returns (filter: Str)
    ensures filter == FilterFor(hash, bitsPerKey, k, keys) && forall key :: key in keys ==> Matches(hash, key, filter)
  {
    var bits := |keys| * bitsPerKey;
    if bits < 64 {
      bits := 64;
    }
    var bytes := (bits + 7) / 8;
    var a := new bv8[bytes](_ => 0);
    assert a[..] == WithKeys(hash, k, keys, 0, bytes);
    for i := 0 to |keys|
      invariant a[..] == WithKeys(hash, k, keys, i, bytes)
    {
      AddKey(a, hash(keys[i]), k);
    }
    filter := ToBytes(a[..]) + [k];
    forall key | key in keys
      ensures Matches(hash, key, filter)
    {
      OwnKeysMatch(hash, bitsPerKey, k, keys, key);
    }
  }

  /** BloomFilterPolicy::KeyMayMatch. */
  method KeyMayMatch(hash: Hash, key: Str, filter: Str) returns (r: bool)
    ensures r == Matches(hash, key, filter)
  {
    var len := |filter|;
    if len < 2 {
      return false;
    }
    var k := filter[len - 1];
    if k > 30 {
      return true;
    }
    var bits := ToBits(filter[..len - 1]);
    var h0 := hash(key);
    var h, delta := h0, Delta(h0);
    for j := 0 to k
      invariant h == Probe(h0, j) && Hits(bits, h0, j)
    {
      var bitpos := h % (8 * |bits|);
      assert bitpos / 8 < |bits|;
      if bits[bitpos / 8] & Weight(bitpos % 8) == 0 {
        assert !BitSet(bits, Probe(h0, j) % (8 * |bits|));
        return false;
      }
      h := (h + delta) % WORD;
    }
    return true;
  }
}
