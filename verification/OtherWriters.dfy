/** Bytes that this encoder does not write, and that the decoder reads all the same (pb_decode.c). */
module OtherWriters {
  import opened Bytes
  import opened Coding
  import D = DbFormat
  import opened Messages
  import opened WireFormat
  import opened WireReader
  import opened RoundTrip

  /** Items of a kind that is packed, written one by one, are read like a packed record. */
  lemma UnpackedItemsAreRead(fields: seq<Field>, base: Value, m: Value, i: nat, rest: seq<byte>, seen: set<nat>)
    requires WellFormed(fields) && IsMessage(fields, base) && IsMessage(fields, m) && i < |fields|
    requires fields[i].rule.Repeated? && Packable(fields[i].kind) && CellHolds(fields[i], m.cells[i]) && FieldWellFormed(fields[i])
    requires FieldEncodable(fields, m, i) && Present(fields, m, i) && CellRoom(fields, base, m, i)
    requires |RecordsWire(fields[i], m.cells[i].items, 0)| < 0x1_0000_0000
    ensures var wire := RecordsWire(fields[i], m.cells[i].items, 0);
      DecodeFields(fields, wire + rest, Partial(fields, base, m, i), SeenBefore(fields, i, seen))
        == After(|wire|, DecodeFields(fields, rest, Partial(fields, base, m, i + 1), SeenBefore(fields, i, seen)))
  {
    hide DecodeFields, DecodeField, Normal, Merge, Wire, RecordsWire;
    var items := m.cells[i].items;
    assert CellHolds(fields[i], base.cells[i]);
    RecordsRead(fields, base, m, i, 0, rest, seen);
    NumbersAreReadable(fields[i].kind, items, 0);
    var all := NormalItems(fields[i].kind, items);
    assert all[..0] == [] && all[..|all|] == all && base.cells[i].items + [] == base.cells[i].items;
    var p := Partial(fields, base, m, i);
    assert p.cells[i := base.cells[i]] == p.cells;
    PartialNext(fields, base, m, i);
  }

  /** A negative number that is written as one of 64 bits is read into 32 bits. */
  lemma SignExtensionIsRead(n: int, rest: seq<byte>)
    requires -0x8000_0000 <= n < 0
    ensures Varint32(Varint(n + 0x1_0000_0000_0000_0000) + rest) == D.Some(Decoded(n + 0x1_0000_0000, 10))
  {
    hide Varint32From, Varint;
    var v: nat := n + 0x1_0000_0000_0000_0000;
    var w := v / 128;
    var x := w / 128;
    var y := x / 128;
    var z := y / 128;
    var s := Varint(v) + rest;
    MoreBytes(v);
    MoreBytes(w);
    MoreBytes(x);
    MoreBytes(y);
    MoreBytes(z);
    assert z / 128 == 0x1FFF_FFFF;
    HighBytes();
    FourBytesRead(s, v % 128, w % 128, x % 128, y % 128);
    FifthByte(s, v % 128 + 0x80 * (w % 128) + 0x4000 * (x % 128) + 0x20_0000 * (y % 128), z % 128, n + 0x1_0000_0000);
    ExtensionIsPassed(s, n + 0x1_0000_0000);
  }

  lemma MoreBytes(v: nat)
    requires v >= 128
    ensures Varint(v) == [v % 128 + 128] + Varint(v / 128)
  {
  }

  /** The bytes above the lowest 35 bits: all ones. */
  lemma HighBytes()
    ensures Varint(0x1FFF_FFFF) == [0xFF, 0xFF, 0xFF, 0xFF, 0x01]
  {
    hide Varint;
    MoreBytes(0x1FFF_FFFF);
    MoreBytes(0x3F_FFFF);
    MoreBytes(0x7FFF);
    MoreBytes(0xFF);
    assert Varint(1) == [1] by {
      LastOne(1);
    }
  }

  lemma LastOne(v: nat)
    requires v < 128
    ensures Varint(v) == [v]
  {
  }

  lemma FourBytesRead(s: seq<byte>, a: nat, b: nat, c: nat, d: nat)
    requires |s| >= 5 && a < 128 && b < 128 && c < 128 && d < 128
    requires s[0] == a + 128 && s[1] == b + 128 && s[2] == c + 128 && s[3] == d + 128
    ensures Varint32From(s, 0, 0) == Varint32From(s, 4, a + 0x80 * b + 0x4000 * c + 0x20_0000 * d)
  {
    hide Varint32From, Range;
    SmallRanges();
    NextByte(s, 0, 0);
    NextByte(s, 1, a);
    NextByte(s, 2, a + 0x80 * b);
    NextByte(s, 3, a + 0x80 * b + 0x4000 * c);
  }

  lemma SmallRanges()
    ensures Range(0) == 1 && Range(1) == 0x80 && Range(2) == 0x4000 && Range(3) == 0x20_0000 && Range(4) == 0x1000_0000
  {
    assert Range(1) == 128 * Range(0) && Range(2) == 128 * Range(1) && Range(3) == 128 * Range(2);
  }

  /** Of the fifth byte the lowest four bits count. */
  lemma FifthByte(s: seq<byte>, result: nat, e: nat, low: nat)
    requires |s| >= 5 && s[4] == e + 128 && e < 128 && result < 0x1000_0000
    requires low == (result + 0x1000_0000 * e) % 0x1_0000_0000
    ensures Varint32From(s, 4, result) == Varint32From(s, 5, low)
  {
    SmallRanges();
    assert s[4] % 128 == e;
  }

  lemma ExtensionIsPassed(s: seq<byte>, low: nat)
    requires |s| >= 10 && s[5] == s[6] == s[7] == s[8] == 0xFF && s[9] == 1 && low >= 0x8000_0000
    ensures Varint32From(s, 5, low) == D.Some(Decoded(low, 10))
  {
    assert Varint32From(s, 9, low) == D.Some(Decoded(low, 10));
    assert Varint32From(s, 8, low) == Varint32From(s, 9, low);
    assert Varint32From(s, 7, low) == Varint32From(s, 8, low);
    assert Varint32From(s, 6, low) == Varint32From(s, 7, low);
  }

  // ---- Numbers that do not fit

  /** `v` is what the varint `n` stands for in a field of this kind; of a small signed number only 32 bits count. */
  predicate StandsFor(k: Kind, n: nat, v: int) {
    if k.Signed? && k.size != 8 then (v - n) % 0x1_0000_0000 == 0 else VarintOf(k, v) == n
  }

  /** A varint is refused exactly when it stands for no number of the field. */
  lemma NumbersThatFit(k: Kind, n: nat)
    requires (k.Unsigned? || k.Signed? || k.ZigZag?) && KindWellFormed(k) && n < Span(8)
    ensures match FromVarint(k, n)
      case Some(v) => IsOf(k, Number(v)) && StandsFor(k, n, v)
      case None => forall v :: IsOf(k, Number(v)) ==> !StandsFor(k, n, v)
  {
    match FromVarint(k, n)
    case Some(v) =>
      FitsAs(k, n, v);
    case None =>
      forall v | IsOf(k, Number(v)) && StandsFor(k, n, v)
        ensures false
      {
        OnlyOne(k, n, v);
      }
  }

  lemma FitsAs(k: Kind, n: nat, v: int)
    requires (k.Unsigned? || k.Signed? || k.ZigZag?) && KindWellFormed(k) && n < Span(8) && FromVarint(k, n) == D.Some(v)
    ensures StandsFor(k, n, v)
  {
    if k.Signed? && k.size == 8 {
      WholeNumber(n, v);
    } else if k.Signed? {
      LowBits(n);
    } else if k.ZigZag? {
      assert n == 2 * (n / 2) + n % 2;
    }
  }

  lemma WholeNumber(n: nat, v: int)
    requires n < Span(8) && v == AsSigned(n, 8)
    ensures v % Span(8) == n
  {
    assert v == n || v == n - 0x1_0000_0000_0000_0000;
  }

  lemma LowBits(n: nat)
    ensures (AsSigned(n, 4) - n) % 0x1_0000_0000 == 0
  {
    var q := n / 0x1_0000_0000;
    assert n == q * 0x1_0000_0000 + n % 0x1_0000_0000;
    assert AsSigned(n, 4) - n == -q * 0x1_0000_0000 || AsSigned(n, 4) - n == (-q - 1) * 0x1_0000_0000;
  }

  lemma OnlyOne(k: Kind, n: nat, v: int)
    requires (k.Unsigned? || k.Signed? || k.ZigZag?) && KindWellFormed(k) && n < Span(8)
    requires IsOf(k, Number(v)) && StandsFor(k, n, v)
    ensures FromVarint(k, n) == D.Some(v)
  {
    if k.Signed? && k.size != 8 {
      assert AsSigned(n, 4) == v by {
        SameLowBits(n, v);
      }
    } else {
      FromVarintReads(k, v);
    }
  }

  lemma SameLowBits(n: nat, v: int)
    requires InSigned(v, 4) && (v - n) % 0x1_0000_0000 == 0
    ensures AsSigned(n, 4) == v
  {
    var q := (v - n) / 0x1_0000_0000;
    assert v == n + q * 0x1_0000_0000;
  }

  // ---- Bytes and texts

  /** An empty record for a byte array of fixed size gives zeros. */
  lemma EmptyIsZeros(size: nat, rest: seq<byte>)
    ensures DecodeBytes(Raw(size), [0] + rest) == D.Some(Read(Data(Zeros(size)), 1))
  {
    assert Varint32From([0] + rest, 0, 0) == D.Some(Decoded(0, 1));
  }

  /** A text is cut at its first NUL, and refused when it leaves no room for one. */
  lemma TextIsCut(size: nat, s: seq<byte>, rest: seq<byte>)
    requires |s| < 0x1_0000_0000
    ensures var r := DecodeBytes(Text(size), Prefixed(s) + rest);
      && (r.Some? <==> |s| < size)
      && (r.Some? ==> r.value.used == |Prefixed(s)| && r.value.value.Data? && 0 !in r.value.value.bytes
                      && var n := |r.value.value.bytes|; n <= |s| && r.value.value.bytes == s[..n] && (n < |s| ==> s[n] == 0))
  {
    hide Varint32;
    PrefixedReads(s, rest);
  }
}
