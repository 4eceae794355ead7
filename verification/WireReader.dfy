/** What nanopb's decoder makes of a byte string (pb_decode.c). */
module WireReader {
  import opened Bytes
  import opened Coding
  import D = DbFormat
  import opened Messages
  import opened WireFormat
  import opened FieldIterators

  type Maybe<T> = D.Option<T>

  /** A value, and how many bytes it took. */
  datatype Read = Read(value: Value, used: nat)

  /** pb_decode_varint32 from byte `p` on, when the bytes before it stand for `result`. */
  function Varint32From(s: seq<byte>, p: nat, result: nat): (r: Maybe<Decoded>)
    ensures r.Some? ==> p < r.value.used <= |s|
    decreases |s| - p
  {
    if p >= |s| then D.None
    else
      var b := s[p];
      var signExtension := if p < 9 then 0xFF else 0x01;
      if p >= 5 && b % 128 != 0 && (result < 0x8000_0000 || b != signExtension) then D.None
      else
        var sum := if p >= 5 then result else (result + b % 128 * Range(p)) % 0x1_0000_0000;
        if b >= 128 then Varint32From(s, p + 1, sum)
        else if p == 4 && b >= 16 then D.None
        else D.Some(Decoded(sum, p + 1))
  }

  function Varint32(s: seq<byte>): (r: Maybe<Decoded>)
    ensures r.Some? ==> 0 < r.value.used <= |s|
  {
    Varint32From(s, 0, 0)
  }

  /** pb_decode_varint: bits above the lowest 64 are lost. */
  function Varint64(s: seq<byte>): (r: Maybe<Decoded>)
    ensures r.Some? ==> 0 < r.value.used <= |s| && r.value.value < Span(8)
  {
    match DecodeVarint(s, 10)
    case None => D.None
    case Some(d) => D.Some(d.(value := d.value % Span(8)))
  }

  /** The length and the end of a length-prefixed string at the front of `s`. */
  function Substring(s: seq<byte>): (r: Maybe<Decoded>)
    ensures r.Some? ==> 0 < r.value.used <= |s| && r.value.value < r.value.used
  {
    match Varint32(s)
    case None => D.None
    case Some(d) => if d.used + d.value <= |s| then D.Some(Decoded(d.value, d.used + d.value)) else D.None
  }

  function Contents(s: seq<byte>, d: Decoded): seq<byte>
    requires d.value <= d.used <= |s|
  {
    s[d.used - d.value..d.used]
  }

  /** The number with the same `size` low bytes in two's complement. */
  function AsSigned(n: nat, size: nat): int {
    var low := n % Span(size);
    if 2 * low < Span(size) then low else low - Span(size)
  }

  /** A varint as a number of this kind, unless it does not fit. */
  function FromVarint(k: Kind, n: nat): (r: Maybe<int>)
    requires k.Unsigned? || k.Signed? || k.ZigZag?
    requires n < Span(8)
    ensures r.Some? ==> IsOf(k, Number(r.value))
  {
    if k.Unsigned? then if n < Span(k.size) then D.Some(n as int) else D.None
    else
      var v: int :=
        if k.Signed? then if k.size == 8 then AsSigned(n, 8) else AsSigned(n, 4)
        else if n % 2 == 1 then -(n / 2) - 1
        else n / 2;
      if InSigned(v, k.size) then D.Some(v) else D.None
  }

  /** What stands before the first NUL. */
  function BeforeNul(s: seq<byte>): (r: seq<byte>)
    ensures |r| <= |s| && r == s[..|r|] && 0 !in r && (|r| < |s| ==> s[|r|] == 0)
  {
    if s == [] || s[0] == 0 then [] else [s[0]] + BeforeNul(s[1..])
  }

  function DecodeFixed64(s: seq<byte>): (r: nat)
    requires |s| >= 8
    ensures r < Span(8)
  {
    DecodeFixed32(s) + DecodeFixed32(s[4..]) * 0x1_0000_0000
  }

  function DecodeNumber(k: Kind, s: seq<byte>): (r: Maybe<Read>)
    requires Packable(k)
    ensures r.Some? ==> 0 < r.value.used <= |s| && IsOf(k, r.value.value)
  {
    if k.Fixed32? then if |s| < 4 then D.None else D.Some(Read(Number(DecodeFixed32(s)), 4))
    else if k.Fixed64? then if |s| < 8 then D.None else D.Some(Read(Number(DecodeFixed64(s)), 8))
    else if k.Flag? then
      match Varint32(s)
      case None => D.None
      case Some(d) => D.Some(Read(Number(if d.value != 0 then 1 else 0), d.used))
    else
      match Varint64(s)
      case None => D.None
      case Some(d) =>
        match FromVarint(k, d.value)
        case None => D.None
        case Some(n) => D.Some(Read(Number(n), d.used))
  }

  /** The decoder of one value. A nested message is merged into `base`. */
  function DecodeValue(k: Kind, s: seq<byte>, base: Value): (r: Maybe<Read>)
    requires KindWellFormed(k) && (k.Nested? ==> IsOf(k, base))
    ensures r.Some? ==> 0 < r.value.used <= |s| && IsOf(k, r.value.value)
    decreases k, 5
  {
    if Packable(k) then DecodeNumber(k, s)
    else if !k.Nested? then DecodeBytes(k, s)
    else
      match Substring(s)
      case None => D.None
      case Some(d) =>
        match DecodeFields(k.fields, Contents(s, d), base, {})
        case None => D.None
        case Some(read) => D.Some(Read(read.value, d.used))
  }

  /** The decoders of bytes and texts. */
  function DecodeBytes(k: Kind, s: seq<byte>): (r: Maybe<Read>)
    requires k.Counted? || k.Text? || k.Raw?
    ensures r.Some? ==> 0 < r.value.used <= |s| && IsOf(k, r.value.value)
  {
    match Varint32(s)
    case None => D.None
    case Some(d) =>
      var rest := s[d.used..];
      if k.Raw? && d.value == 0 then D.Some(Read(Data(Zeros(k.size)), d.used))
      else if d.value > Room(k) || (k.Raw? && d.value != k.size) || d.value > |rest| then D.None
      else
        var contents := rest[..d.value];
        D.Some(Read(Data(if k.Text? then BeforeNul(contents) else contents), d.used + d.value))
  }

  /** How many bytes a value of this kind has room for; a text also needs a NUL. */
  function Room(k: Kind): int
    requires k.Counted? || k.Text? || k.Raw?
  {
    match k
    case Counted(capacity) => capacity
    case Text(size) => size - 1
    case Raw(size) => size
  }

  /** The items of a packed record are put behind `items`. */
  function DecodePacked(k: Kind, max: nat, s: seq<byte>, items: seq<Value>): (r: Maybe<seq<Value>>)
    requires Packable(k) && forall j :: 0 <= j < |items| ==> IsOf(k, items[j])
    ensures r.Some? ==> forall j :: 0 <= j < |r.value| ==> IsOf(k, r.value[j])
    decreases |s|
  {
    if s == [] then D.Some(items)
    else if |items| >= max then D.None
    else
      match DecodeNumber(k, s)
      case None => D.None
      case Some(read) => DecodePacked(k, max, s[read.used..], items + [read.value])
  }

  predicate IsMessage(fields: seq<Field>, m: Value) {
    m.Message? && Holds(fields, m)
  }

  function WithCell(m: Value, i: nat, c: Cell): Value
    requires m.Message? && i < |m.cells|
  {
    m.(cells := m.cells[i := c])
  }

  /** Union `group` stores the member with number `tag`. */
  function Choose(m: Value, group: nat, tag: nat): Value
    requires m.Message? && group < |m.which|
  {
    m.(which := m.which[group := tag])
  }

  /** decode_static_field: the message after a record for field `i`. */
  function DecodeField(fields: seq<Field>, i: nat, wire: nat, s: seq<byte>, m: Value): (r: Maybe<Read>)
    requires WellFormed(fields) && IsMessage(fields, m) && i < |fields|
    ensures r.Some? ==> 0 < r.value.used <= |s| && IsMessage(fields, r.value.value)
    decreases fields, 2
  {
    var f, c := fields[i], m.cells[i];
    assert CellHolds(f, c) && FieldWellFormed(f);
    match f.rule
    case Repeated(max) => DecodeItems(fields, i, wire, s, m)
    case Optional =>
      (match DecodeRecord(f, s, c.value)
       case None => D.None
       case Some(read) => D.Some(Read(WithCell(m, i, Maybe(true, read.value)), read.used)))
    case OneOf(group) =>
      FieldDefaultHolds(f);
      var base := if m.which[group] == f.tag then c.value else Default(f.kind, f.initial);
      (match DecodeRecord(f, s, base)
       case None => D.None
       case Some(read) => D.Some(Read(Choose(WithCell(m, i, One(read.value)), group, f.tag), read.used)))
    case _ =>
      match DecodeRecord(f, s, c.value)
      case None => D.None
      case Some(read) => D.Some(Read(WithCell(m, i, One(read.value)), read.used))
  }

  /** A record for a repeated field: packed, or one more item. */
  function DecodeItems(fields: seq<Field>, i: nat, wire: nat, s: seq<byte>, m: Value): (r: Maybe<Read>)
    requires WellFormed(fields) && IsMessage(fields, m) && i < |fields| && fields[i].rule.Repeated?
    ensures r.Some? ==> 0 < r.value.used <= |s| && IsMessage(fields, r.value.value)
    decreases fields, 1
  {
    var f, c := fields[i], m.cells[i];
    assert CellHolds(f, c) && FieldWellFormed(f);
    if wire == WireCode(WireString) && Packable(f.kind) then
      match Substring(s)
      case None => D.None
      case Some(d) =>
        match DecodePacked(f.kind, f.rule.max, Contents(s, d), c.items)
        case None => D.None
        case Some(items) => D.Some(Read(WithCell(m, i, Many(items)), d.used))
    else if |c.items| >= f.rule.max then D.None
    else
      FieldDefaultHolds(f);
      match DecodeRecord(f, s, Default(f.kind, f.initial))
      case None => D.None
      case Some(read) => D.Some(Read(WithCell(m, i, Many(c.items + [read.value])), read.used))
  }

  /** The value of a record for field `f`. */
  function DecodeRecord(f: Field, s: seq<byte>, base: Value): (r: Maybe<Read>)
    requires FieldWellFormed(f) && (f.kind.Nested? ==> IsOf(f.kind, base))
    ensures r.Some? ==> 0 < r.value.used <= |s| && IsOf(f.kind, r.value.value)
    decreases f, 6
  {
    DecodeValue(f.kind, s, base)
  }

  lemma FieldDefaultHolds(f: Field)
    requires FieldWellFormed(f)
    ensures IsOf(f.kind, Default(f.kind, f.initial))
    decreases f, 2
  {
    DefaultHolds(f.kind, f.initial);
  }

  lemma DefaultHolds(k: Kind, initial: Value)
    requires KindWellFormed(k) && (!k.Nested? ==> IsOf(k, initial))
    ensures IsOf(k, Default(k, initial))
    decreases k, 1
  {
    if k.Nested? {
      DefaultsHold(k.fields);
    }
  }

  lemma DefaultsHold(fields: seq<Field>)
    requires WellFormed(fields)
    ensures IsMessage(fields, Defaults(fields))
    decreases fields, 0
  {
    forall i | 0 <= i < |fields|
      ensures CellHolds(fields[i], DefaultCell(fields[i]))
    {
      var f := fields[i];
      assert FieldWellFormed(f);
      FieldDefaultHolds(f);
    }
  }

  /** pb_skip_field: how long a record of this wire type is. */
  function Skip(wire: nat, s: seq<byte>): (r: Maybe<nat>)
    ensures r.Some? ==> r.value <= |s|
  {
    if wire == WireCode(WireVarint) then
      match DecodeVarint(s, |s|)
      case None => D.None
      case Some(d) => D.Some(d.used)
    else if wire == WireCode(WireString) then
      match Substring(s)
      case None => D.None
      case Some(d) => D.Some(d.used)
    else
      var n := if wire == WireCode(Wire64) then 8 else if wire == WireCode(Wire32) then 4 else |s| + 1;
      if n <= |s| then D.Some(n) else D.None
  }

  const MAX_REQUIRED_FIELDS: nat := 64

  /** The marks in fields_seen after a record for field `i`. */
  function Seen(fields: seq<Field>, i: nat, seen: set<nat>): set<nat>
    requires i < |fields|
  {
    var index := RequiredBefore(fields, i);
    if fields[i].rule.Required? && index < MAX_REQUIRED_FIELDS then seen + {index} else seen
  }

  predicate AllSeen(fields: seq<Field>, seen: set<nat>) {
    forall r :: 0 <= r < RequiredBefore(fields, |fields|) && r < MAX_REQUIRED_FIELDS ==> r in seen
  }

  function After(used: nat, r: Maybe<Read>): Maybe<Read> {
    if r.None? then D.None else D.Some(Read(r.value.value, used + r.value.used))
  }

  /** pb_decode_noinit: the records of `s` are put into `m`. */
  function DecodeFields(fields: seq<Field>, s: seq<byte>, m: Value, seen: set<nat>): (r: Maybe<Read>)
    requires WellFormed(fields) && IsMessage(fields, m)
    ensures r.Some? ==> r.value.used <= |s| && IsMessage(fields, r.value.value)
    decreases fields, 3, |s|
  {
    if s == [] then if AllSeen(fields, seen) then D.Some(Read(m, 0)) else D.None
    else
      match Varint32(s)
      case None => D.None
      case Some(d) =>
        var rest, i := s[d.used..], IndexOf(fields, d.value / 8);
        if d.value == 0 then if AllSeen(fields, seen) then D.Some(Read(m, d.used)) else D.None
        else if i == |fields| then
          match Skip(d.value % 8, rest)
          case None => D.None
          case Some(n) => After(d.used + n, DecodeFields(fields, rest[n..], m, seen))
        else
          match DecodeField(fields, i, d.value % 8, rest, m)
          case None => D.None
          case Some(read) =>
            After(d.used + read.used, DecodeFields(fields, rest[read.used..], read.value, Seen(fields, i, seen)))
  }

  /** pb_decode. */
  function Decode(fields: seq<Field>, s: seq<byte>): (r: Maybe<Read>)
    requires WellFormed(fields)
    ensures r.Some? ==> r.value.used <= |s| && IsMessage(fields, r.value.value)
  {
    DefaultsHold(fields);
    DecodeFields(fields, s, Defaults(fields), {})
  }

  /** Decoding `s` is decoding `rest` once the record for field `i`, which takes `used` bytes, gave `r`. */
  predicate Continues(fields: seq<Field>, s: seq<byte>, m: Value, seen: set<nat>, i: nat, r: Maybe<Read>, used: nat, rest: seq<byte>)
    requires WellFormed(fields) && IsMessage(fields, m) && i < |fields|
    requires r.Some? ==> IsMessage(fields, r.value.value)
  {
    DecodeFields(fields, s, m, seen)
      == if r.None? then D.None
         else After(used, DecodeFields(fields, rest, r.value.value, Seen(fields, i, seen)))
  }

  /** A record for a field of the message. */
  lemma KnownField(fields: seq<Field>, s: seq<byte>, m: Value, seen: set<nat>, d: Decoded, i: nat, r: Maybe<Read>, used: nat, rest: seq<byte>)
    requires WellFormed(fields) && IsMessage(fields, m)
    requires Varint32(s) == D.Some(d) && d.value != 0 && IndexOf(fields, d.value / 8) == i < |fields|
    requires DecodeField(fields, i, d.value % 8, s[d.used..], m) == r
    requires r.Some? ==> used == d.used + r.value.used && s[d.used..][r.value.used..] == rest
    ensures Continues(fields, s, m, seen, i, r, used, rest)
  {
  }

  /** A record for no field of the message. */
  lemma UnknownField(fields: seq<Field>, s: seq<byte>, m: Value, seen: set<nat>, d: Decoded)
    requires WellFormed(fields) && IsMessage(fields, m)
    requires Varint32(s) == D.Some(d) && d.value != 0 && IndexOf(fields, d.value / 8) == |fields|
    ensures var n := Skip(d.value % 8, s[d.used..]);
      DecodeFields(fields, s, m, seen)
        == if n.None? then D.None else After(d.used + n.value, DecodeFields(fields, s[d.used..][n.value..], m, seen))
  {
  }

  /** No further record: the input is at its end, or there is no tag, or the tag is 0. */
  lemma NoField(fields: seq<Field>, s: seq<byte>, m: Value, seen: set<nat>)
    requires WellFormed(fields) && IsMessage(fields, m)
    requires s == [] || Varint32(s).None? || Varint32(s).value.value == 0
    ensures var used := if s == [] || Varint32(s).None? then 0 else Varint32(s).value.used;
      DecodeFields(fields, s, m, seen)
        == if (s != [] && Varint32(s).None?) || !AllSeen(fields, seen) then D.None else D.Some(Read(m, used))
  {
  }
}
