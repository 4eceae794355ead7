/** Descriptors and messages of nanopb (ios/Pods/nanopb/pb.h, pb_common.c). */
module Messages {
  import opened Bytes

  /** The data type of a field: how one value is stored and written. */
  datatype Kind =
    | Flag
    | Signed(size: nat)
    | Unsigned(size: nat)
    | ZigZag(size: nat)
    | Fixed32
    | Fixed64
    | Counted(capacity: nat)
    | Text(size: nat)
    | Nested(fields: seq<Field>)
    | Raw(size: nat)

  /** The repetition rule: `Optional` has a has-flag, `Singular` is present when it is not
      zero, and the members of a union share the number of the group's first member. */
  datatype Rule = Required | Optional | Singular | Repeated(max: nat) | OneOf(group: nat)

  /** `initial` is the default of a field that is not a message. */
  datatype Field = Field(tag: nat, kind: Kind, rule: Rule, initial: Value)

  /** One value; a text is what stands before its NUL. In a message, `which` holds for each
      union the tag of the member that it stores, or 0. */
  datatype Value =
    | Number(n: int)
    | Data(bytes: seq<byte>)
    | Message(cells: seq<Cell>, which: seq<nat>)

  datatype Cell = One(value: Value) | Maybe(has: bool, value: Value) | Many(items: seq<Value>)

  /** How many numbers an integer of `size` bytes has. */
  function Span(size: nat): (r: nat)
    ensures r > 0 && r % 2 == 0
  {
    if size == 1 then 0x100
    else if size == 2 then 0x1_0000
    else if size == 4 then 0x1_0000_0000
    else 0x1_0000_0000_0000_0000
  }

  predicate IntegerSize(size: nat) {
    size == 1 || size == 2 || size == 4 || size == 8
  }

  predicate InSigned(n: int, size: nat) {
    0 <= 2 * n + Span(size) < 2 * Span(size)
  }

  /** Whether arrays of this kind are packed. */
  predicate Packable(k: Kind) {
    !(k.Counted? || k.Text? || k.Nested? || k.Raw?)
  }

  /** `v` is what a C variable of this kind can hold. */
  predicate IsOf(k: Kind, v: Value)
    decreases v, 2
  {
    match k
    case Flag => v.Number? && 0 <= v.n <= 1
    case Signed(size) => v.Number? && InSigned(v.n, size)
    case Unsigned(size) => v.Number? && 0 <= v.n < Span(size)
    case ZigZag(size) => v.Number? && InSigned(v.n, size)
    case Fixed32 => v.Number? && 0 <= v.n < Span(4)
    case Fixed64 => v.Number? && 0 <= v.n < Span(8)
    case Counted(_) => v.Data?
    case Text(size) => v.Data? && |v.bytes| <= size && 0 !in v.bytes
    case Raw(size) => v.Data? && |v.bytes| == size
    case Nested(fields) => v.Message? && Holds(fields, v)
  }

  /** `m` is what the struct with these fields can hold. */
  predicate Holds(fields: seq<Field>, m: Value)
    requires m.Message?
    decreases m, 1
  {
    |m.cells| == |fields| && |m.which| == |fields| &&
    forall i :: 0 <= i < |fields| ==> CellHolds(fields[i], m.cells[i])
  }

  predicate CellHolds(f: Field, c: Cell)
    decreases c, 0
  {
    match f.rule
    case Optional => c.Maybe? && IsOf(f.kind, c.value)
    case Repeated(_) => c.Many? && forall j :: 0 <= j < |c.items| ==> IsOf(f.kind, c.items[j])
    case _ => c.One? && IsOf(f.kind, c.value)
  }

  /** The struct has room for the bytes of `v`, and for the NUL of a text. */
  predicate HasRoom(k: Kind, v: Value)
    requires IsOf(k, v)
  {
    (k.Counted? ==> |v.bytes| <= k.capacity) && (k.Text? ==> |v.bytes| < k.size)
  }

  predicate Zero(v: Value)
    requires !v.Message?
  {
    if v.Number? then v.n == 0 else |v.bytes| == 0
  }

  /** What the generator promises of a descriptor. */
  predicate WellFormed(fields: seq<Field>)
    decreases fields
  {
    && (forall i, j :: 0 <= i < j < |fields| ==> fields[i].tag != fields[j].tag)
    && (forall i :: 0 <= i < |fields| ==>
          && FieldWellFormed(fields[i])
          && (fields[i].rule.OneOf? ==> fields[i].rule.group < |fields|))
  }

  predicate FieldWellFormed(f: Field)
    decreases f
  {
    && 0 < f.tag < 0x2000_0000
    && KindWellFormed(f.kind)
    && (!f.kind.Nested? ==> IsOf(f.kind, f.initial) && HasRoom(f.kind, f.initial))
    && (f.rule.Singular? ==> f.kind.Nested? || f.kind.Raw? || Zero(f.initial))
  }

  predicate KindWellFormed(k: Kind)
    decreases k
  {
    match k
    case Signed(size) => IntegerSize(size)
    case Unsigned(size) => IntegerSize(size)
    case ZigZag(size) => IntegerSize(size)
    case Nested(fields) => WellFormed(fields)
    case _ => true
  }

  /** pb_message_set_to_defaults. */
  function Defaults(fields: seq<Field>): (m: Value)
    ensures m.Message? && |m.cells| == |fields| && |m.which| == |fields|
    decreases fields, 1
  {
    Message(seq(|fields|, i requires 0 <= i < |fields| => DefaultCell(fields[i])), seq(|fields|, _ => 0))
  }

  /** pb_field_set_to_default: a repeated field is emptied, and a union is deselected. */
  function DefaultCell(f: Field): Cell
    decreases f, 2
  {
    match f.rule
    case Optional => Maybe(false, Default(f.kind, f.initial))
    case Repeated(_) => Many([])
    case _ => One(Default(f.kind, f.initial))
  }

  function Default(k: Kind, initial: Value): Value
    decreases k, 1
  {
    if k.Nested? then Defaults(k.fields) else initial
  }

  /** pb_check_proto3_default_value for every field: nothing in `m` would be written. */
  predicate AllDefault(fields: seq<Field>, m: Value)
    requires m.Message? && Holds(fields, m) && WellFormed(fields)
    decreases m, 1
  {
    forall i :: 0 <= i < |fields| ==> IsDefault(fields, m, i)
  }

  /** pb_check_proto3_default_value. */
  predicate IsDefault(fields: seq<Field>, m: Value, i: nat)
    requires m.Message? && Holds(fields, m) && WellFormed(fields) && i < |fields|
    decreases m, 0
  {
    var f, c := fields[i], m.cells[i];
    assert CellHolds(f, c) && FieldWellFormed(f);
    match f.rule
    case Required => false
    case Repeated(_) => |c.items| == 0
    case OneOf(group) => m.which[group] == 0
    case Optional => !c.has
    case Singular => IsZero(f.kind, c.value)
  }

  predicate IsZero(k: Kind, v: Value)
    requires IsOf(k, v) && KindWellFormed(k)
    decreases v, 2
  {
    if k.Nested? then AllDefault(k.fields, v) else Zero(v)
  }
}
