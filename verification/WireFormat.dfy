/** The bytes that nanopb writes for a message (pb_encode.c), and the messages that it can write.
    The format is that of the Protocol Buffers Encoding specification. */
module WireFormat {
  import opened Bytes
  import opened Coding
  import opened Messages

  datatype WireType = WireVarint | Wire64 | WireString | Wire32

  function WireCode(w: WireType): (r: nat)
    ensures r < 8
  {
    match w
    case WireVarint => 0
    case Wire64 => 1
    case WireString => 2
    case Wire32 => 5
  }

  function WireTypeOf(k: Kind): WireType {
    match k
    case Fixed32 => Wire32
    case Fixed64 => Wire64
    case Counted(_) => WireString
    case Text(_) => WireString
    case Nested(_) => WireString
    case Raw(_) => WireString
    case _ => WireVarint
  }

  function TagWire(tag: nat, w: WireType): (r: seq<byte>)
    ensures |r| >= 1
  {
    Varint(8 * tag + WireCode(w))
  }

  function Fixed64Wire(n: nat): (r: seq<byte>)
    requires n < Span(8)
    ensures |r| == 8
  {
    EncodeFixed32(n % 0x1_0000_0000) + EncodeFixed32(n / 0x1_0000_0000)
  }

  /** The number that stands for `n` in a varint. */
  function VarintOf(k: Kind, n: int): nat {
    if k.ZigZag? then if n < 0 then -2 * n - 1 else 2 * n
    else n % Span(8)
  }

  function Prefixed(s: seq<byte>): (r: seq<byte>)
    ensures |r| > |s|
  {
    Varint(|s|) + s
  }

  function ValueWire(k: Kind, v: Value): seq<byte>
    requires KindWellFormed(k) && IsOf(k, v)
    decreases v, 4
  {
    match k
    case Fixed32 => EncodeFixed32(v.n)
    case Fixed64 => Fixed64Wire(v.n)
    case Nested(fields) => Prefixed(Wire(fields, v, 0))
    case Counted(_) => Prefixed(v.bytes)
    case Text(_) => Prefixed(v.bytes)
    case Raw(_) => Prefixed(v.bytes)
    case _ => Varint(VarintOf(k, v.n))
  }

  /** The message from its field `i` on. */
  function Wire(fields: seq<Field>, m: Value, i: nat): seq<byte>
    requires WellFormed(fields) && m.Message? && Holds(fields, m) && i <= |fields|
    decreases m, 3, |fields| - i
  {
    if i == |fields| then [] else FieldWire(fields, m, i) + Wire(fields, m, i + 1)
  }

  /** Whether field `i` is written: its has-flag, its value, or the choice of its union. */
  predicate Present(fields: seq<Field>, m: Value, i: nat)
    requires WellFormed(fields) && m.Message? && Holds(fields, m) && i < |fields|
  {
    match fields[i].rule
    case OneOf(group) => m.which[group] == fields[i].tag
    case Required => true
    case _ => !IsDefault(fields, m, i)
  }

  function FieldWire(fields: seq<Field>, m: Value, i: nat): seq<byte>
    requires WellFormed(fields) && m.Message? && Holds(fields, m) && i < |fields|
    decreases m, 2
  {
    var f, c := fields[i], m.cells[i];
    assert CellHolds(f, c) && FieldWellFormed(f);
    if !Present(fields, m, i) then []
    else if c.Many? then
      if Packable(f.kind) then TagWire(f.tag, WireString) + Prefixed(PackedWire(f.kind, c.items, 0))
      else RecordsWire(f, c.items, 0)
    else RecordWire(f, c.value)
  }

  function RecordWire(f: Field, v: Value): seq<byte>
    requires FieldWellFormed(f) && IsOf(f.kind, v)
    decreases v, 5
  {
    TagWire(f.tag, WireTypeOf(f.kind)) + ValueWire(f.kind, v)
  }

  function PackedWire(k: Kind, items: seq<Value>, j: nat): seq<byte>
    requires KindWellFormed(k) && (forall j :: 0 <= j < |items| ==> IsOf(k, items[j])) && j <= |items|
    decreases items, 1, |items| - j
  {
    if j == |items| then [] else ValueWire(k, items[j]) + PackedWire(k, items, j + 1)
  }

  function RecordsWire(f: Field, items: seq<Value>, j: nat): seq<byte>
    requires FieldWellFormed(f) && (forall j :: 0 <= j < |items| ==> IsOf(f.kind, items[j])) && j <= |items|
    decreases items, 1, |items| - j
  {
    if j == |items| then [] else RecordWire(f, items[j]) + RecordsWire(f, items, j + 1)
  }

  /** What is written of `v` respects the sizes of its fields. */
  predicate Encodable(k: Kind, v: Value)
    requires KindWellFormed(k) && IsOf(k, v)
    decreases v, 4
  {
    match k
    case Counted(capacity) => |v.bytes| <= capacity
    case Nested(fields) => AllEncodable(fields, v, 0)
    case _ => true
  }

  predicate AllEncodable(fields: seq<Field>, m: Value, i: nat)
    requires WellFormed(fields) && m.Message? && Holds(fields, m) && i <= |fields|
    decreases m, 3, |fields| - i
  {
    i < |fields| ==> FieldEncodable(fields, m, i) && AllEncodable(fields, m, i + 1)
  }

  predicate FieldEncodable(fields: seq<Field>, m: Value, i: nat)
    requires WellFormed(fields) && m.Message? && Holds(fields, m) && i < |fields|
    decreases m, 2
  {
    var f, c := fields[i], m.cells[i];
    assert CellHolds(f, c) && FieldWellFormed(f);
    Present(fields, m, i) ==>
      if c.Many? then |c.items| <= f.rule.max && ItemsEncodable(f.kind, c.items, 0)
      else Encodable(f.kind, c.value)
  }

  predicate ItemsEncodable(k: Kind, items: seq<Value>, j: nat)
    requires KindWellFormed(k) && (forall j :: 0 <= j < |items| ==> IsOf(k, items[j])) && j <= |items|
    decreases items, 1, |items| - j
  {
    j < |items| ==> Encodable(k, items[j]) && ItemsEncodable(k, items, j + 1)
  }

  /** A cell of which nothing is to be written; `chosen` is the member that its union stores. */
  predicate Unset(f: Field, c: Cell, chosen: nat)
    requires FieldWellFormed(f) && CellHolds(f, c)
  {
    match f.rule
    case Required => false
    case Optional => !c.has
    case Repeated(_) => c.items == []
    case OneOf(_) => chosen != f.tag
    case Singular =>
      assert IsOf(f.kind, c.value);
      IsZero(f.kind, c.value)
  }

  /** Nothing is written of exactly these fields. */
  lemma WrittenUnlessUnset(fields: seq<Field>, m: Value, i: nat)
    requires WellFormed(fields) && m.Message? && Holds(fields, m) && i < |fields|
    ensures var f, c := fields[i], m.cells[i];
      && FieldWellFormed(f) && CellHolds(f, c)
      && (FieldWire(fields, m, i) == [] <==> Unset(f, c, if f.rule.OneOf? then m.which[f.rule.group] else 0))
  {
    var f, c := fields[i], m.cells[i];
    if c.Many? && c.items != [] {
      assert RecordsWire(f, c.items, 0) == RecordWire(f, c.items[0]) + RecordsWire(f, c.items, 1);
    }
  }

  /** Nothing is written of a message of defaults. */
  lemma {:induction false} DefaultsAreNotWritten(fields: seq<Field>, m: Value, i: nat)
    requires WellFormed(fields) && m.Message? && Holds(fields, m) && AllDefault(fields, m) && i <= |fields|
    ensures Wire(fields, m, i) == []
    decreases |fields| - i
  {
    if i < |fields| {
      DefaultsAreNotWritten(fields, m, i + 1);
      WrittenUnlessUnset(fields, m, i);
      assert IsDefault(fields, m, i) && FieldWellFormed(fields[i]);
    }
  }
}
