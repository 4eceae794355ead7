/** Fields that the reader does not know are passed over (pb_decode.c, pb_skip_field). */
module UnknownFields {
  import opened Bytes
  import opened Coding
  import D = DbFormat
  import opened Messages
  import opened WireFormat
  import opened WireReader
  import opened FieldIterators
  import opened RoundTrip

  lemma {:induction false} VarintFits(n: nat)
    ensures n < Range(|Varint(n)|)
  {
    if n < 128 {
      assert Range(1) == 128 * Range(0);
    } else {
      VarintFits(n / 128);
    }
  }

  lemma {:induction false} WiderRange(a: nat, b: nat)
    requires a <= b
    ensures Range(a) <= Range(b)
    decreases b
  {
    if a < b {
      WiderRange(a, b - 1);
    }
  }

  lemma VarintIsSkipped(n: nat, rest: seq<byte>)
    ensures Skip(WireCode(WireVarint), Varint(n) + rest) == D.Some(|Varint(n)|)
  {
    var s := Varint(n) + rest;
    VarintFits(n);
    WiderRange(|Varint(n)|, |s|);
    VarintRoundTrip(n, rest, |s|);
  }

  /** Skipping finds the end of what was written of a value. */
  lemma ValueIsSkipped(k: Kind, v: Value, rest: seq<byte>)
    requires KindWellFormed(k) && IsOf(k, v) && |ValueWire(k, v)| < 0x1_0000_0000
    ensures Skip(WireCode(WireTypeOf(k)), ValueWire(k, v) + rest) == D.Some(|ValueWire(k, v)|)
  {
    match k
    case Fixed32 =>
    case Fixed64 =>
    case Nested(fields) => PrefixedReads(Wire(fields, v, 0), rest);
    case Counted(_) => PrefixedReads(v.bytes, rest);
    case Text(_) => PrefixedReads(v.bytes, rest);
    case Raw(_) => PrefixedReads(v.bytes, rest);
    case _ => VarintIsSkipped(VarintOf(k, v.n), rest);
  }

  /** Reading `wire` and then anything else is reading that alone. */
  ghost predicate Ignored(fields: seq<Field>, wire: seq<byte>)
    requires WellFormed(fields)
  {
    forall s, m, seen :: IsMessage(fields, m) ==> IgnoredBefore(fields, wire, s, m, seen)
  }

  predicate IgnoredBefore(fields: seq<Field>, wire: seq<byte>, s: seq<byte>, m: Value, seen: set<nat>)
    requires WellFormed(fields) && IsMessage(fields, m)
  {
    DecodeFields(fields, wire + s, m, seen) == After(|wire|, DecodeFields(fields, s, m, seen))
  }

  lemma SkippedIsIgnored(fields: seq<Field>, tag: nat, w: WireType, payload: seq<byte>, s: seq<byte>, m: Value, seen: set<nat>)
    requires WellFormed(fields) && IsMessage(fields, m) && 0 < tag < 0x2000_0000 && IndexOf(fields, tag) == |fields|
    requires Skip(WireCode(w), payload + s) == D.Some(|payload|)
    ensures IgnoredBefore(fields, TagWire(tag, w) + payload, s, m, seen)
  {
    hide DecodeFields, Skip, Varint, Varint32, WellFormed, Holds, IndexOf;
    var key := 8 * tag + WireCode(w);
    TagReads(key, payload, s);
    UnknownField(fields, Varint(key) + payload + s, m, seen, Decoded(key, |Varint(key)|));
  }

  /** A record for a field that the reader does not know changes nothing. */
  lemma RecordIsIgnored(fields: seq<Field>, u: Field, v: Value)
    requires WellFormed(fields) && FieldWellFormed(u) && IndexOf(fields, u.tag) == |fields|
    requires IsOf(u.kind, v) && |ValueWire(u.kind, v)| < 0x1_0000_0000
    ensures Ignored(fields, RecordWire(u, v))
  {
    forall s, m, seen | IsMessage(fields, m)
      ensures IgnoredBefore(fields, RecordWire(u, v), s, m, seen)
    {
      ValueIsSkipped(u.kind, v, s);
      SkippedIsIgnored(fields, u.tag, WireTypeOf(u.kind), ValueWire(u.kind, v), s, m, seen);
    }
  }

  lemma PackedIsIgnored(fields: seq<Field>, tag: nat, items: seq<byte>)
    requires WellFormed(fields) && 0 < tag < 0x2000_0000 && IndexOf(fields, tag) == |fields|
    requires |items| < 0x1_0000_0000
    ensures Ignored(fields, TagWire(tag, WireString) + Prefixed(items))
  {
    forall s, m, seen | IsMessage(fields, m)
      ensures IgnoredBefore(fields, TagWire(tag, WireString) + Prefixed(items), s, m, seen)
    {
      PrefixedReads(items, s);
      SkippedIsIgnored(fields, tag, WireString, Prefixed(items), s, m, seen);
    }
  }

  lemma NothingIsIgnored(fields: seq<Field>)
    requires WellFormed(fields)
    ensures Ignored(fields, [])
  {
    forall s, m, seen | IsMessage(fields, m)
      ensures IgnoredBefore(fields, [], s, m, seen)
    {
      assert [] + s == s;
    }
  }

  lemma BothAreIgnored(fields: seq<Field>, a: seq<byte>, b: seq<byte>)
    requires WellFormed(fields) && Ignored(fields, a) && Ignored(fields, b)
    ensures Ignored(fields, a + b)
  {
    hide DecodeFields;
    forall s, m, seen | IsMessage(fields, m)
      ensures IgnoredBefore(fields, a + b, s, m, seen)
    {
      assert (a + b) + s == a + (b + s);
      assert IgnoredBefore(fields, a, b + s, m, seen) && IgnoredBefore(fields, b, s, m, seen);
    }
  }

  lemma {:induction false} RecordsAreIgnored(fields: seq<Field>, u: Field, items: seq<Value>, j: nat)
    requires WellFormed(fields) && FieldWellFormed(u) && IndexOf(fields, u.tag) == |fields|
    requires (forall j :: 0 <= j < |items| ==> IsOf(u.kind, items[j])) && j <= |items|
    requires |RecordsWire(u, items, j)| < 0x1_0000_0000
    ensures Ignored(fields, RecordsWire(u, items, j))
    decreases |items| - j
  {
    hide Ignored;
    if j == |items| {
      NothingIsIgnored(fields);
    } else {
      RecordIsIgnored(fields, u, items[j]);
      RecordsAreIgnored(fields, u, items, j + 1);
      BothAreIgnored(fields, RecordWire(u, items[j]), RecordsWire(u, items, j + 1));
    }
  }

  lemma FieldIsIgnored(fields: seq<Field>, others: seq<Field>, x: Value, i: nat)
    requires WellFormed(fields) && WellFormed(others) && IsMessage(others, x) && i < |others|
    requires IndexOf(fields, others[i].tag) == |fields| && |FieldWire(others, x, i)| < 0x1_0000_0000
    ensures Ignored(fields, FieldWire(others, x, i))
  {
    hide Ignored;
    var u, c := others[i], x.cells[i];
    assert CellHolds(u, c) && FieldWellFormed(u);
    if !Present(others, x, i) {
      NothingIsIgnored(fields);
    } else if !c.Many? {
      RecordIsIgnored(fields, u, c.value);
    } else if Packable(u.kind) {
      PackedIsIgnored(fields, u.tag, PackedWire(u.kind, c.items, 0));
    } else {
      RecordsAreIgnored(fields, u, c.items, 0);
    }
  }

  /** The reader knows none of these fields. */
  predicate Unknown(fields: seq<Field>, others: seq<Field>) {
    forall i :: 0 <= i < |others| ==> IndexOf(fields, others[i].tag) == |fields|
  }

  /** What a newer writer wrote of fields that the reader does not know changes nothing. */
  lemma {:induction false} NewFieldsAreIgnored(fields: seq<Field>, others: seq<Field>, x: Value, i: nat)
    requires WellFormed(fields) && WellFormed(others) && IsMessage(others, x) && i <= |others|
    requires Unknown(fields, others) && |Wire(others, x, i)| < 0x1_0000_0000
    ensures Ignored(fields, Wire(others, x, i))
    decreases |others| - i
  {
    hide Ignored;
    if i == |others| {
      NothingIsIgnored(fields);
    } else {
      FieldIsIgnored(fields, others, x, i);
      NewFieldsAreIgnored(fields, others, x, i + 1);
      BothAreIgnored(fields, FieldWire(others, x, i), Wire(others, x, i + 1));
    }
  }

  /** A message of a newer writer, new fields in front, is read like the message without them. */
  lemma OldReaderReadsNewMessage(fields: seq<Field>, m: Value, others: seq<Field>, x: Value)
    requires WellFormed(fields) && IsMessage(fields, m) && AllEncodable(fields, m, 0) && |Wire(fields, m, 0)| < 0x1_0000_0000
    requires WellFormed(others) && IsMessage(others, x) && Unknown(fields, others) && |Wire(others, x, 0)| < 0x1_0000_0000
    ensures var s := Wire(others, x, 0) + Wire(fields, m, 0);
      Decode(fields, s) == Answer(AllReadable(fields, m, 0), Normal(Nested(fields), m), |s|)
  {
    DefaultsHold(fields);
    NewFieldsAreIgnored(fields, others, x, 0);
    DecodeUndoesEncode(fields, m);
    assert IgnoredBefore(fields, Wire(others, x, 0), Wire(fields, m, 0), Defaults(fields), {});
  }

  // ---- In bytes ----

  const COUNT := Field(2, Unsigned(4), Singular, Number(0))

  /** Four bytes of a field 1 that the reader does not know, and field 2. */
  lemma FourBytesAreSkipped()
    ensures WellFormed([COUNT])
    ensures Decode([COUNT], [0x0D, 1, 2, 3, 4, 0x10, 7]) == D.Some(Read(Message([One(Number(7))], [0]), 7))
  {
    hide DecodeFields;
    var fields, s, count := [COUNT], [0x0D, 1, 2, 3, 4, 0x10, 7], [0x10, 7];
    var none, m := Defaults(fields), Message([One(Number(7))], [0]);
    DefaultsHold(fields);
    assert Varint32From(s, 0, 0) == D.Some(Decoded(13, 1)) && Varint32From(count, 0, 0) == D.Some(Decoded(16, 1));
    assert IndexOf(fields, 1) == 1 && IndexOf(fields, 2) == 0;
    assert s[1..][4..] == count;
    assert DecodeVarint([7], 10) == D.Some(Decoded(7, 1)) && count[1..] == [7];
    assert WithCell(none, 0, One(Number(7))) == m;
    assert DecodeField(fields, 0, 0, [7], none) == D.Some(Read(m, 1));
    UnknownField(fields, s, none, {}, Decoded(13, 1));
    KnownField(fields, count, none, {}, Decoded(16, 1), 0, D.Some(Read(m, 1)), 2, []);
    NoField(fields, [], m, {});
  }

  const NUMBER := Number(0)

  lemma VarintBytes(n: nat, low: byte, high: nat)
    requires n == low + 128 * high && low < 128
    ensures Varint(n) == if high == 0 then [low] else [low + 128] + Varint(high)
  {
  }

  /** Examples of the Protocol Buffers Encoding specification. */
  lemma BytesOfNumbers()
    ensures RecordWire(Field(1, Unsigned(4), Singular, NUMBER), Number(150)) == [0x08, 0x96, 0x01]
    ensures RecordWire(Field(1, ZigZag(4), Singular, NUMBER), Number(-2)) == [0x08, 3]
    ensures TagWire(6, WireString) + Prefixed(PackedWire(Unsigned(4), [Number(3), Number(270), Number(86942)], 0))
         == [0x32, 0x06, 0x03, 0x8E, 0x02, 0x9E, 0xA7, 0x05]
  {
    hide Varint;
    VarintBytes(8, 8, 0);
    VarintBytes(150, 22, 1);
    VarintBytes(1, 1, 0);
    VarintBytes(3, 3, 0);
    VarintBytes(270, 14, 2);
    VarintBytes(2, 2, 0);
    VarintBytes(86942, 30, 679);
    VarintBytes(679, 39, 5);
    VarintBytes(5, 5, 0);
    VarintBytes(6, 6, 0);
    VarintBytes(50, 50, 0);
    var items := [Number(3), Number(270), Number(86942)];
    assert PackedWire(Unsigned(4), items, 2) == [0x9E, 0xA7, 0x05];
    assert PackedWire(Unsigned(4), items, 1) == [0x8E, 0x02, 0x9E, 0xA7, 0x05];
  }

  /** A negative number of four bytes takes ten, as one of eight does. */
  lemma BytesOfMinusTwo()
    ensures RecordWire(Field(1, Signed(4), Singular, NUMBER), Number(-2))
         == [0x08, 0xFE, 0xFF, 0xFF, 0xFF, 0xFF, 0xFF, 0xFF, 0xFF, 0xFF, 0x01]
  {
    hide Varint;
    VarintBytes(8, 8, 0);
    VarintBytes(0xFFFF_FFFF_FFFF_FFFE, 126, 0x1FF_FFFF_FFFF_FFFF);
    VarintBytes(0x1FF_FFFF_FFFF_FFFF, 127, 0x3_FFFF_FFFF_FFFF);
    VarintBytes(0x3_FFFF_FFFF_FFFF, 127, 0x7FF_FFFF_FFFF);
    VarintBytes(0x7FF_FFFF_FFFF, 127, 0xF_FFFF_FFFF);
    VarintBytes(0xF_FFFF_FFFF, 127, 0x1FFF_FFFF);
    VarintBytes(0x1FFF_FFFF, 127, 0x3F_FFFF);
    VarintBytes(0x3F_FFFF, 127, 0x7FFF);
    VarintBytes(0x7FFF, 127, 0xFF);
    VarintBytes(0xFF, 127, 1);
    VarintBytes(1, 1, 0);
  }

  /** A record of each wire type that has a fixed size or a length. */
  lemma BytesOfOthers()
    ensures RecordWire(Field(2, Text(8), Singular, Data([])), Data([104, 105])) == [0x12, 2, 104, 105]
    ensures RecordWire(Field(1, Fixed32, Singular, NUMBER), Number(0x0403_0201)) == [0x0D, 1, 2, 3, 4]
    ensures RecordWire(Field(1, Fixed64, Singular, NUMBER), Number(0x0807_0605_0403_0201)) == [0x09, 1, 2, 3, 4, 5, 6, 7, 8]
  {
    hide Varint, EncodeFixed32, Fixed64Wire;
    VarintBytes(0x12, 0x12, 0);
    VarintBytes(2, 2, 0);
    VarintBytes(0x0D, 0x0D, 0);
    VarintBytes(0x09, 0x09, 0);
    FixedBytes();
  }

  lemma FixedBytes()
    ensures EncodeFixed32(0x0403_0201) == [1, 2, 3, 4] && EncodeFixed32(0x0807_0605) == [5, 6, 7, 8]
    ensures Fixed64Wire(0x0807_0605_0403_0201) == [1, 2, 3, 4, 5, 6, 7, 8]
  {
    assert EncodeFixed32(0x0403_0201) == [1, 2, 3, 4] && EncodeFixed32(0x0807_0605) == [5, 6, 7, 8];
  }
}
