/** Decoding undoes encoding (pb_encode.c, pb_decode.c). */
module RoundTrip {
  import opened Bytes
  import opened Coding
  import D = DbFormat
  import opened Messages
  import opened WireFormat
  import opened WireReader
  import opened FieldIterators

  // ---- What comes back ----

  /** What is there when `v` was read into `base`: values that were written replace those of the base, items are
      added to its items, and nested messages are merged. */
  function Merge(k: Kind, base: Value, v: Value): (r: Value)
    requires KindWellFormed(k) && IsOf(k, v) && (k.Nested? ==> IsOf(k, base))
    ensures IsOf(k, r)
    decreases v, 4
  {
    if k.Nested? then Partial(k.fields, base, v, |k.fields|) else v
  }

  /** The value that comes back: like `v`, with the default wherever nothing was written. */
  function Normal(k: Kind, v: Value): (r: Value)
    requires KindWellFormed(k) && IsOf(k, v)
    ensures IsOf(k, r)
    decreases v, 5
  {
    DefaultHolds(k, v);
    Merge(k, Default(k, v), v)
  }

  /** What is there when the fields before `i` were read into `base`. */
  function Partial(fields: seq<Field>, base: Value, m: Value, i: nat): (r: Value)
    requires WellFormed(fields) && IsMessage(fields, base) && IsMessage(fields, m) && i <= |fields|
    ensures IsMessage(fields, r)
    decreases m, 3
  {
    Message(seq(|fields|, j requires 0 <= j < |fields| => if j < i then MergeCell(fields, base, m, j) else base.cells[j]),
            seq(|fields|, g requires 0 <= g < |fields| => if Chosen(fields, m.which[g], g, i) then m.which[g] else base.which[g]))
  }

  /** `tag` is the number of a member of union `group` before field `i`. */
  predicate Chosen(fields: seq<Field>, tag: nat, group: nat, i: nat)
    requires i <= |fields|
  {
    exists j :: 0 <= j < i && fields[j].tag == tag && fields[j].rule == OneOf(group)
  }

  /** The value that field `i` is read into; a union that stores another member starts from the default. */
  function BaseOf(fields: seq<Field>, base: Value, i: nat): (r: Value)
    requires WellFormed(fields) && IsMessage(fields, base) && i < |fields| && !fields[i].rule.Repeated?
    ensures IsOf(fields[i].kind, r)
  {
    var f, c := fields[i], base.cells[i];
    assert CellHolds(f, c) && FieldWellFormed(f);
    FieldDefaultHolds(f);
    if f.rule.OneOf? && base.which[f.rule.group] != f.tag then Default(f.kind, f.initial) else c.value
  }

  function MergeCell(fields: seq<Field>, base: Value, m: Value, i: nat): (r: Cell)
    requires WellFormed(fields) && IsMessage(fields, base) && IsMessage(fields, m) && i < |fields|
    ensures CellHolds(fields[i], r)
    decreases m, 2
  {
    var f, c := fields[i], m.cells[i];
    assert CellHolds(f, c) && CellHolds(f, base.cells[i]) && FieldWellFormed(f);
    if !Present(fields, m, i) then base.cells[i]
    else if c.Many? then Many(base.cells[i].items + NormalItems(f.kind, c.items))
    else if c.Maybe? then Maybe(true, Merge(f.kind, BaseOf(fields, base, i), c.value))
    else One(Merge(f.kind, BaseOf(fields, base, i), c.value))
  }

  function NormalItems(k: Kind, items: seq<Value>): (r: seq<Value>)
    requires KindWellFormed(k) && forall j :: 0 <= j < |items| ==> IsOf(k, items[j])
    ensures |r| == |items| && forall j :: 0 <= j < |items| ==> r[j] == Normal(k, items[j]) && IsOf(k, r[j])
    decreases items, 1
  {
    seq(|items|, j requires 0 <= j < |items| => Normal(k, items[j]))
  }

  /** The arrays have room for the items of `v` behind those of the base. */
  predicate RoomFor(k: Kind, base: Value, v: Value)
    requires KindWellFormed(k) && IsOf(k, v) && (k.Nested? ==> IsOf(k, base))
    decreases v, 4
  {
    k.Nested? ==> forall i :: 0 <= i < |k.fields| ==> CellRoom(k.fields, base, v, i)
  }

  predicate CellRoom(fields: seq<Field>, base: Value, m: Value, i: nat)
    requires WellFormed(fields) && IsMessage(fields, base) && IsMessage(fields, m) && i < |fields|
    decreases m, 2
  {
    var f, c := fields[i], m.cells[i];
    assert CellHolds(f, c) && CellHolds(f, base.cells[i]) && FieldWellFormed(f);
    FieldDefaultHolds(f);
    Present(fields, m, i) ==>
      if c.Many? then |base.cells[i].items| + |c.items| <= f.rule.max && ItemsRoom(f, c.items)
      else RoomFor(f.kind, BaseOf(fields, base, i), c.value)
  }

  predicate ItemsRoom(f: Field, items: seq<Value>)
    requires FieldWellFormed(f) && forall j :: 0 <= j < |items| ==> IsOf(f.kind, items[j])
    decreases items, 1
  {
    FieldDefaultHolds(f);
    forall j :: 0 <= j < |items| ==> RoomFor(f.kind, Default(f.kind, f.initial), items[j])
  }

  /** The texts that are written of `v` leave room for their NULs. */
  predicate Readable(k: Kind, v: Value)
    requires KindWellFormed(k) && IsOf(k, v)
    decreases v, 4
  {
    match k
    case Text(size) => |v.bytes| < size
    case Nested(fields) => AllReadable(fields, v, 0)
    case _ => true
  }

  predicate AllReadable(fields: seq<Field>, m: Value, i: nat)
    requires WellFormed(fields) && IsMessage(fields, m) && i <= |fields|
    decreases m, 3, |fields| - i
  {
    i < |fields| ==> FieldReadable(fields, m, i) && AllReadable(fields, m, i + 1)
  }

  predicate FieldReadable(fields: seq<Field>, m: Value, i: nat)
    requires WellFormed(fields) && IsMessage(fields, m) && i < |fields|
    decreases m, 2
  {
    var f, c := fields[i], m.cells[i];
    assert CellHolds(f, c) && FieldWellFormed(f);
    Present(fields, m, i) ==>
      if c.Many? then ItemsReadable(f.kind, c.items, 0) else Readable(f.kind, c.value)
  }

  predicate ItemsReadable(k: Kind, items: seq<Value>, j: nat)
    requires KindWellFormed(k) && (forall j :: 0 <= j < |items| ==> IsOf(k, items[j])) && j <= |items|
    decreases items, 1, |items| - j
  {
    j < |items| ==> Readable(k, items[j]) && ItemsReadable(k, items, j + 1)
  }

  // ---- Varints ----

  /** A varint of at most five bytes is read exactly when it is below 2^32. */
  lemma {:induction false} ShortVarint(s: seq<byte>, p: nat, result: nat)
    requires p <= 5 && p <= |s| && result < Range(p)
    ensures var d := DecodeVarint(s[p..], 5 - p);
      d.Some? ==>
        var sum := result + Range(p) * d.value.value;
        Varint32From(s, p, result) == if sum < 0x1_0000_0000 then D.Some(Decoded(sum, p + d.value.used)) else D.None
    decreases 5 - p
  {
    hide Varint32From;
    var d := DecodeVarint(s[p..], 5 - p);
    if d.Some? {
      var b: nat := s[p];
      assert s[p..][1..] == s[p + 1..];
      if b < 128 {
        assert d.value == Decoded(b, 1);
        LastByte(s, p, result);
      } else {
        var high := DecodeVarint(s[p + 1..], 4 - p);
        assert high.Some? && d.value == Decoded(b - 128 + 128 * high.value.value, high.value.used + 1);
        Distribute(Range(p), b - 128, high.value.value);
        NextByte(s, p, result);
        ShortVarint(s, p + 1, result + (b - 128) * Range(p));
      }
    }
  }

  /** Five bytes: only the last one can take the sum over 2^32. */
  lemma Sum(p: nat, result: nat, b: nat)
    requires p < 5 && result < Range(p) && b < 128
    ensures Range(p) * b == b * Range(p) && result + b * Range(p) < 128 * Range(p) == Range(p + 1)
    ensures result + b * Range(p) < 0x1_0000_0000 <==> p < 4 || b < 16
  {
    Powers(p);
    Times(b, Range(p));
    assert p < 4 ==> result + b * Range(p) < 0x1000_0000;
  }

  lemma Times(b: nat, r: nat)
    requires b < 128
    ensures 0 <= b * r && b * r + r <= 128 * r
  {
  }

  lemma LastByte(s: seq<byte>, p: nat, result: nat)
    requires p < 5 && p < |s| && result < Range(p) && s[p] < 128
    ensures var sum := result + Range(p) * s[p];
      Varint32From(s, p, result) == if sum < 0x1_0000_0000 then D.Some(Decoded(sum, p + 1)) else D.None
  {
    var b: nat := s[p];
    Sum(p, result, b);
    var sum := result + b * Range(p);
    if p < 4 || b < 16 {
      assert sum % 0x1_0000_0000 == sum;
    }
  }

  lemma NextByte(s: seq<byte>, p: nat, result: nat)
    requires p < 4 && p < |s| && result < Range(p) && s[p] >= 128
    ensures var sum := result + (s[p] - 128) * Range(p);
      sum < Range(p + 1) && Varint32From(s, p, result) == Varint32From(s, p + 1, sum)
  {
    var b: nat := s[p] - 128;
    assert b == s[p] % 128;
    Sum(p, result, b);
    var sum := result + b * Range(p);
    assert sum % 0x1_0000_0000 == sum;
  }

  lemma Powers(p: nat)
    requires p < 5
    ensures Range(p + 1) == 128 * Range(p)
    ensures p < 4 ==> Range(p + 1) <= 0x1000_0000
    ensures p == 4 ==> Range(p) == 0x1000_0000
  {
    assert Range(4) == 128 * (128 * (128 * (128 * Range(0))));
    assert Range(3) == 128 * (128 * (128 * Range(0)));
    assert Range(2) == 128 * (128 * Range(0));
    assert Range(1) == 128 * Range(0);
  }

  lemma Varint32Reads(v: nat, rest: seq<byte>)
    requires v < 0x1_0000_0000
    ensures Varint32(Varint(v) + rest) == D.Some(Decoded(v, |Varint(v)|))
  {
    Range32();
    VarintRoundTrip(v, rest, 5);
    var s := Varint(v) + rest;
    assert s[0..] == s;
    ShortVarint(s, 0, 0);
  }

  lemma Range64()
    ensures Span(8) <= Range(10)
  {
    Powers(4);
    assert Range(10) == 128 * (128 * (128 * (128 * (128 * (128 * Range(4))))));
  }

  lemma Varint64Reads(v: nat, rest: seq<byte>)
    requires v < Span(8)
    ensures Varint64(Varint(v) + rest) == D.Some(Decoded(v, |Varint(v)|))
  {
    Range64();
    VarintRoundTrip(v, rest, 10);
  }

  lemma SignedReads(n: int, size: nat)
    requires IntegerSize(size) && InSigned(n, size)
    ensures AsSigned(n % Span(8), if size == 8 then 8 else 4) == n
  {
    if n < 0 {
      assert n % Span(8) == n + Span(8);
    }
    if size != 8 && n < 0 {
      assert (n + Span(8)) == (n + Span(4)) + 0xFFFF_FFFF * Span(4);
    }
  }

  lemma ZigZagReads(k: Kind, n: int)
    requires k.ZigZag? && IntegerSize(k.size) && InSigned(n, k.size)
    ensures VarintOf(k, n) < Span(8) && FromVarint(k, VarintOf(k, n)) == D.Some(n)
  {
    var code := VarintOf(k, n);
    assert InSigned(n, 8);
    assert n < 0 ==> code == 2 * (-n - 1) + 1;
    assert code / 2 == (if n < 0 then -n - 1 else n) && code % 2 == (if n < 0 then 1 else 0);
  }

  lemma FromVarintReads(k: Kind, n: int)
    requires k.Unsigned? || k.Signed? || k.ZigZag?
    requires KindWellFormed(k) && IsOf(k, Number(n))
    ensures VarintOf(k, n) < Span(8) && FromVarint(k, VarintOf(k, n)) == D.Some(n)
  {
    if k.Signed? {
      SignedReads(n, k.size);
    } else if k.ZigZag? {
      ZigZagReads(k, n);
    }
  }

  lemma Fixed64Reads(n: nat, rest: seq<byte>)
    requires n < Span(8)
    ensures DecodeFixed64(Fixed64Wire(n) + rest) == n
  {
    var low, high := EncodeFixed32(n % 0x1_0000_0000), EncodeFixed32(n / 0x1_0000_0000);
    var s := Fixed64Wire(n) + rest;
    assert s == low + (high + rest);
    assert s[4..] == high + rest;
    Fixed32RoundTrip(n % 0x1_0000_0000, high + rest);
    Fixed32RoundTrip(n / 0x1_0000_0000, rest);
  }

  lemma NumberReads(k: Kind, v: Value, rest: seq<byte>)
    requires KindWellFormed(k) && IsOf(k, v) && Packable(k)
    ensures DecodeNumber(k, ValueWire(k, v) + rest) == D.Some(Read(v, |ValueWire(k, v)|))
  {
    if k.Fixed32? || k.Fixed64? {
      FixedReads(k, v, rest);
    } else if k.Flag? {
      FlagReads(v, rest);
    } else {
      IntegerReads(k, v, rest);
    }
  }

  lemma FixedReads(k: Kind, v: Value, rest: seq<byte>)
    requires (k.Fixed32? || k.Fixed64?) && IsOf(k, v)
    ensures DecodeNumber(k, ValueWire(k, v) + rest) == D.Some(Read(v, |ValueWire(k, v)|))
  {
    if k.Fixed32? {
      Fixed32RoundTrip(v.n, rest);
    } else {
      Fixed64Reads(v.n, rest);
    }
  }

  lemma FlagReads(v: Value, rest: seq<byte>)
    requires IsOf(Flag, v)
    ensures DecodeNumber(Flag, ValueWire(Flag, v) + rest) == D.Some(Read(v, |ValueWire(Flag, v)|))
  {
    assert VarintOf(Flag, v.n) == v.n;
    Varint32Reads(v.n, rest);
  }

  lemma IntegerReads(k: Kind, v: Value, rest: seq<byte>)
    requires k.Unsigned? || k.Signed? || k.ZigZag?
    requires KindWellFormed(k) && IsOf(k, v)
    ensures DecodeNumber(k, ValueWire(k, v) + rest) == D.Some(Read(v, |ValueWire(k, v)|))
  {
    var code := VarintOf(k, v.n);
    FromVarintReads(k, v.n);
    Varint64Reads(code, rest);
    assert ValueWire(k, v) == Varint(code);
  }

  /** Packed items come back one after another. */
  lemma {:induction false} PackedReads(k: Kind, max: nat, before: seq<Value>, items: seq<Value>, j: nat)
    requires KindWellFormed(k) && Packable(k) && forall j :: 0 <= j < |items| ==> IsOf(k, items[j])
    requires forall j :: 0 <= j < |before| ==> IsOf(k, before[j])
    requires j <= |items| && |before| + |items| <= max
    ensures DecodePacked(k, max, PackedWire(k, items, j), before + items[..j]) == D.Some(before + items)
    decreases |items| - j
  {
    if j == |items| {
      assert items[..j] == items;
    } else {
      var first, rest := ValueWire(k, items[j]), PackedWire(k, items, j + 1);
      NumberReads(k, items[j], rest);
      assert (first + rest)[|first|..] == rest;
      assert before + items[..j] + [items[j]] == before + items[..j + 1];
      PackedReads(k, max, before, items, j + 1);
    }
  }

  // ---- Records ----

  /** A record for field `i` at the front of the input. */
  lemma OneRecord(fields: seq<Field>, i: nat, w: WireType, payload: seq<byte>, rest: seq<byte>, m: Value, seen: set<nat>, r: Maybe<Read>)
    requires WellFormed(fields) && IsMessage(fields, m) && i < |fields|
    requires DecodeField(fields, i, WireCode(w), payload + rest, m) == r && (r.Some? ==> r.value.used == |payload|)
    ensures var tag := TagWire(fields[i].tag, w);
      Continues(fields, tag + payload + rest, m, seen, i, r, |tag| + |payload|, rest)
  {
    hide DecodeFields;
    var tag, key := TagWire(fields[i].tag, w), 8 * fields[i].tag + WireCode(w);
    var s := tag + payload + rest;
    assert FieldWellFormed(fields[i]);
    TagIsFound(fields, i);
    TagReads(key, payload, rest);
    KnownField(fields, s, m, seen, Decoded(key, |tag|), i, r, |tag| + |payload|, rest);
  }

  lemma TagReads(key: nat, payload: seq<byte>, rest: seq<byte>)
    requires key < 0x1_0000_0000
    ensures var tag := Varint(key); var s := tag + payload + rest;
      && Varint32(s) == D.Some(Decoded(key, |tag|))
      && s[|tag|..] == payload + rest
      && s[|tag|..][|payload|..] == rest
  {
    assert Varint(key) + payload + rest == Varint(key) + (payload + rest);
    Varint32Reads(key, payload + rest);
  }

  lemma TagIsFound(fields: seq<Field>, i: nat)
    requires WellFormed(fields) && i < |fields|
    ensures IndexOf(fields, fields[i].tag) == i
  {
    assert HasTag(fields, i, fields[i].tag);
  }

  /** The marks after records for the fields before `i`. */
  function SeenBefore(fields: seq<Field>, i: nat, seen: set<nat>): set<nat>
    requires i <= |fields|
  {
    if i == 0 then seen else Seen(fields, i - 1, SeenBefore(fields, i - 1, seen))
  }

  lemma {:induction false} SeenIsAll(fields: seq<Field>, i: nat, seen: set<nat>)
    requires i <= |fields|
    ensures forall r :: 0 <= r < RequiredBefore(fields, i) && r < MAX_REQUIRED_FIELDS ==> r in SeenBefore(fields, i, seen)
  {
    if i > 0 {
      SeenIsAll(fields, i - 1, seen);
    }
  }

  lemma ChosenGrows(fields: seq<Field>, tag: nat, group: nat, i: nat)
    requires i < |fields|
    ensures Chosen(fields, tag, group, i + 1)
         <==> Chosen(fields, tag, group, i) || (fields[i].tag == tag && fields[i].rule == OneOf(group))
  {
  }

  /** Putting back field `i`. */
  lemma PartialNext(fields: seq<Field>, base: Value, m: Value, i: nat)
    requires WellFormed(fields) && IsMessage(fields, base) && IsMessage(fields, m) && i < |fields|
    ensures var next := WithCell(Partial(fields, base, m, i), i, MergeCell(fields, base, m, i)); var rule := fields[i].rule;
      Partial(fields, base, m, i + 1)
        == if rule.OneOf? && Present(fields, m, i) then Choose(next, rule.group, fields[i].tag) else next
  {
    forall g | 0 <= g < |fields|
      ensures Chosen(fields, m.which[g], g, i + 1)
         <==> Chosen(fields, m.which[g], g, i) || (fields[i].tag == m.which[g] && fields[i].rule == OneOf(g))
    {
      ChosenGrows(fields, m.which[g], g, i);
    }
    var next := WithCell(Partial(fields, base, m, i), i, MergeCell(fields, base, m, i));
    var after := Partial(fields, base, m, i + 1);
    assert after.cells == next.cells;
    if fields[i].rule.OneOf? && Present(fields, m, i) {
      assert after.which == Choose(next, fields[i].rule.group, fields[i].tag).which;
    } else {
      assert after.which == next.which;
    }
  }

  // ---- Values, fields and messages ----

  lemma PrefixedReads(p: seq<byte>, rest: seq<byte>)
    requires |p| < 0x1_0000_0000
    ensures var s := Prefixed(p) + rest; var n := |Varint(|p|)|;
      && Varint32(s) == D.Some(Decoded(|p|, n)) && n + |p| == |Prefixed(p)| <= |s| && s[n..][..|p|] == p
      && Substring(s) == D.Some(Decoded(|p|, |Prefixed(p)|)) && Contents(s, Decoded(|p|, |Prefixed(p)|)) == p
  {
    assert Prefixed(p) + rest == Varint(|p|) + (p + rest);
    Varint32Reads(|p|, p + rest);
  }

  /** The answer that reading `v` back has to give. */
  function Answer(readable: bool, v: Value, used: nat): Maybe<Read> {
    if readable then D.Some(Read(v, used)) else D.None
  }

  lemma BytesRead(k: Kind, v: Value, rest: seq<byte>, base: Value)
    requires k.Counted? || k.Text? || k.Raw?
    requires IsOf(k, v) && Encodable(k, v) && |ValueWire(k, v)| < 0x1_0000_0000
    ensures DecodeValue(k, ValueWire(k, v) + rest, base) == Answer(Readable(k, v), v, |ValueWire(k, v)|)
  {
    hide DecodeFields;
    PrefixedReads(v.bytes, rest);
    assert ValueWire(k, v) == Prefixed(v.bytes);
    var s, n := Prefixed(v.bytes) + rest, |Varint(|v.bytes|)|;
    if k.Raw? && k.size == 0 {
      assert v.bytes == Zeros(0);
    } else if k.Text? {
      assert BeforeNul(s[n..][..|v.bytes|]) == v.bytes;
    }
  }

  lemma NestedReads(k: Kind, v: Value, rest: seq<byte>, base: Value)
    requires k.Nested? && KindWellFormed(k) && IsOf(k, v) && |ValueWire(k, v)| < 0x1_0000_0000
    requires IsOf(k, base)
    requires DecodeFields(k.fields, Wire(k.fields, v, 0), base, {})
          == Answer(Readable(k, v), Merge(k, base, v), |Wire(k.fields, v, 0)|)
    ensures DecodeValue(k, ValueWire(k, v) + rest, base) == Answer(Readable(k, v), Merge(k, base, v), |ValueWire(k, v)|)
  {
    hide DecodeFields;
    PrefixedReads(Wire(k.fields, v, 0), rest);
  }

  lemma {:induction false} ValueReads(k: Kind, v: Value, rest: seq<byte>, base: Value)
    requires KindWellFormed(k) && IsOf(k, v) && Encodable(k, v) && |ValueWire(k, v)| < 0x1_0000_0000
    requires (k.Nested? ==> IsOf(k, base)) && RoomFor(k, base, v)
    ensures DecodeValue(k, ValueWire(k, v) + rest, base) == Answer(Readable(k, v), Merge(k, base, v), |ValueWire(k, v)|)
    decreases v, 4
  {
    if Packable(k) {
      NumberReads(k, v, rest);
    } else if k.Nested? {
      MessageEnds(k.fields, base, v, {});
      NestedReads(k, v, rest, base);
    } else {
      BytesRead(k, v, rest, base);
    }
  }

  lemma PartialFirst(fields: seq<Field>, base: Value, m: Value)
    requires WellFormed(fields) && IsMessage(fields, base) && IsMessage(fields, m)
    ensures Partial(fields, base, m, 0) == base
  {
    assert Partial(fields, base, m, 0).cells == base.cells;
    assert Partial(fields, base, m, 0).which == base.which;
  }

  /** The fields from `i` on are put back from what was written of them. */
  predicate MessageIsBack(fields: seq<Field>, base: Value, m: Value, i: nat, rest: seq<byte>, seen: set<nat>)
    requires WellFormed(fields) && IsMessage(fields, base) && IsMessage(fields, m) && i <= |fields|
  {
    var wire, n := Wire(fields, m, i), |fields|;
    DecodeFields(fields, wire + rest, Partial(fields, base, m, i), SeenBefore(fields, i, seen))
      == if AllReadable(fields, m, i)
         then After(|wire|, DecodeFields(fields, rest, Partial(fields, base, m, n), SeenBefore(fields, n, seen)))
         else D.None
  }

  lemma {:induction false} MessageReads(fields: seq<Field>, base: Value, m: Value, i: nat, rest: seq<byte>, seen: set<nat>)
    requires WellFormed(fields) && IsMessage(fields, base) && IsMessage(fields, m) && i <= |fields|
    requires AllEncodable(fields, m, i) && |Wire(fields, m, i)| < 0x1_0000_0000
    requires forall j :: i <= j < |fields| ==> CellRoom(fields, base, m, j)
    ensures MessageIsBack(fields, base, m, i, rest, seen)
    decreases m, 3, |fields| - i
  {
    hide DecodeFields;
    if i == |fields| {
      assert Wire(fields, m, i) + rest == rest;
    } else {
      FieldReads(fields, base, m, i, Wire(fields, m, i + 1) + rest, seen);
      MessageReads(fields, base, m, i + 1, rest, seen);
      OneMoreIsBack(fields, base, m, i, rest, seen);
    }
  }

  lemma OneMoreIsBack(fields: seq<Field>, base: Value, m: Value, i: nat, rest: seq<byte>, seen: set<nat>)
    requires WellFormed(fields) && IsMessage(fields, base) && IsMessage(fields, m) && i < |fields|
    requires FieldIsBack(fields, base, m, i, Wire(fields, m, i + 1) + rest, seen)
    requires MessageIsBack(fields, base, m, i + 1, rest, seen)
    ensures MessageIsBack(fields, base, m, i, rest, seen)
  {
    hide DecodeFields;
    assert Wire(fields, m, i) == FieldWire(fields, m, i) + Wire(fields, m, i + 1);
    assert Wire(fields, m, i) + rest == FieldWire(fields, m, i) + (Wire(fields, m, i + 1) + rest);
    assert AllReadable(fields, m, i) == (FieldReadable(fields, m, i) && AllReadable(fields, m, i + 1));
  }

  /** What was written of a message is read to its end. */
  lemma {:induction false} MessageEnds(fields: seq<Field>, base: Value, m: Value, seen: set<nat>)
    requires WellFormed(fields) && IsMessage(fields, base) && IsMessage(fields, m)
    requires AllEncodable(fields, m, 0) && |Wire(fields, m, 0)| < 0x1_0000_0000 && RoomFor(Nested(fields), base, m)
    ensures DecodeFields(fields, Wire(fields, m, 0), base, seen)
         == Answer(AllReadable(fields, m, 0), Merge(Nested(fields), base, m), |Wire(fields, m, 0)|)
    decreases m, 3, |fields| + 1
  {
    hide DecodeFields, AllReadable, AllEncodable;
    PartialFirst(fields, base, m);
    MessageReads(fields, base, m, 0, [], seen);
    assert Wire(fields, m, 0) + [] == Wire(fields, m, 0);
    SeenIsAll(fields, |fields|, seen);
    NoField(fields, [], Partial(fields, base, m, |fields|), SeenBefore(fields, |fields|, seen));
  }

  /** Field `i` is put back from what was written of it. */
  predicate FieldIsBack(fields: seq<Field>, base: Value, m: Value, i: nat, rest: seq<byte>, seen: set<nat>)
    requires WellFormed(fields) && IsMessage(fields, base) && IsMessage(fields, m) && i < |fields|
  {
    var wire := FieldWire(fields, m, i);
    DecodeFields(fields, wire + rest, Partial(fields, base, m, i), SeenBefore(fields, i, seen))
      == if FieldReadable(fields, m, i)
         then After(|wire|, DecodeFields(fields, rest, Partial(fields, base, m, i + 1), SeenBefore(fields, i + 1, seen)))
         else D.None
  }

  lemma {:induction false} FieldReads(fields: seq<Field>, base: Value, m: Value, i: nat, rest: seq<byte>, seen: set<nat>)
    requires WellFormed(fields) && IsMessage(fields, base) && IsMessage(fields, m) && i < |fields|
    requires FieldEncodable(fields, m, i) && |FieldWire(fields, m, i)| < 0x1_0000_0000 && CellRoom(fields, base, m, i)
    ensures FieldIsBack(fields, base, m, i, rest, seen)
    decreases m, 2
  {
    var f, c := fields[i], m.cells[i];
    assert CellHolds(f, c) && FieldWellFormed(f);
    if !Present(fields, m, i) {
      AbsentReads(fields, base, m, i, rest, seen);
    } else if !c.Many? {
      ValueReads(f.kind, c.value, rest, BaseOf(fields, base, i));
      SingleReads(fields, base, m, i, rest, seen);
    } else if Packable(f.kind) {
      PackedFieldReads(fields, base, m, i, rest, seen);
    } else {
      RecordsRead(fields, base, m, i, 0, rest, seen);
      RecordsAreField(fields, base, m, i, rest, seen);
    }
  }

  lemma AbsentReads(fields: seq<Field>, base: Value, m: Value, i: nat, rest: seq<byte>, seen: set<nat>)
    requires WellFormed(fields) && IsMessage(fields, base) && IsMessage(fields, m) && i < |fields| && !Present(fields, m, i)
    ensures FieldIsBack(fields, base, m, i, rest, seen)
  {
    hide DecodeFields;
    PartialNext(fields, base, m, i);
    var p := Partial(fields, base, m, i);
    assert p.cells[i := base.cells[i]] == p.cells;
    assert FieldWire(fields, m, i) + rest == rest;
  }

  lemma SingleReads(fields: seq<Field>, base: Value, m: Value, i: nat, rest: seq<byte>, seen: set<nat>)
    requires WellFormed(fields) && IsMessage(fields, base) && IsMessage(fields, m) && i < |fields|
    requires Present(fields, m, i) && !m.cells[i].Many?
    requires CellHolds(fields[i], m.cells[i]) && FieldWellFormed(fields[i])
    requires !fields[i].rule.Repeated?
    requires var f, v := fields[i], m.cells[i].value; var was := BaseOf(fields, base, i);
      DecodeValue(f.kind, ValueWire(f.kind, v) + rest, was)
        == Answer(Readable(f.kind, v), Merge(f.kind, was, v), |ValueWire(f.kind, v)|)
    ensures FieldIsBack(fields, base, m, i, rest, seen)
  {
    var f, v := fields[i], m.cells[i].value;
    var payload, p := ValueWire(f.kind, v), Partial(fields, base, m, i);
    var r := Answer(Readable(f.kind, v), Partial(fields, base, m, i + 1), |payload|);
    SingleIsPut(fields, base, m, i, rest);
    OneRecord(fields, i, WireTypeOf(f.kind), payload, rest, p, SeenBefore(fields, i, seen), r);
  }

  lemma SingleIsPut(fields: seq<Field>, base: Value, m: Value, i: nat, rest: seq<byte>)
    requires WellFormed(fields) && IsMessage(fields, base) && IsMessage(fields, m) && i < |fields|
    requires Present(fields, m, i) && !m.cells[i].Many? && !fields[i].rule.Repeated?
    requires CellHolds(fields[i], m.cells[i]) && FieldWellFormed(fields[i])
    requires var f, v := fields[i], m.cells[i].value; var was := BaseOf(fields, base, i);
      DecodeValue(f.kind, ValueWire(f.kind, v) + rest, was)
        == Answer(Readable(f.kind, v), Merge(f.kind, was, v), |ValueWire(f.kind, v)|)
    ensures var f, v := fields[i], m.cells[i].value;
      DecodeField(fields, i, WireCode(WireTypeOf(f.kind)), ValueWire(f.kind, v) + rest, Partial(fields, base, m, i))
        == Answer(Readable(f.kind, v), Partial(fields, base, m, i + 1), |ValueWire(f.kind, v)|)
  {
    hide DecodeFields;
    var f, p := fields[i], Partial(fields, base, m, i);
    assert CellHolds(f, base.cells[i]) && p.cells[i] == base.cells[i];
    FieldDefaultHolds(f);
    if f.rule.OneOf? {
      assert !Chosen(fields, f.tag, f.rule.group, i);
      assert p.which[f.rule.group] == base.which[f.rule.group];
    }
    PartialNext(fields, base, m, i);
  }

  lemma PackedFieldReads(fields: seq<Field>, base: Value, m: Value, i: nat, rest: seq<byte>, seen: set<nat>)
    requires WellFormed(fields) && IsMessage(fields, base) && IsMessage(fields, m) && i < |fields|
    requires Present(fields, m, i) && fields[i].rule.Repeated? && Packable(fields[i].kind)
    requires FieldEncodable(fields, m, i) && |FieldWire(fields, m, i)| < 0x1_0000_0000 && CellRoom(fields, base, m, i)
    ensures FieldIsBack(fields, base, m, i, rest, seen)
  {
    hide DecodeFields;
    var f, c := fields[i], m.cells[i];
    assert CellHolds(f, c) && CellHolds(f, base.cells[i]) && FieldWellFormed(f);
    var payload, p := Prefixed(PackedWire(f.kind, c.items, 0)), Partial(fields, base, m, i);
    var marks := SeenBefore(fields, i, seen);
    var r := D.Some(Read(Partial(fields, base, m, i + 1), |payload|));
    PackedIsPut(fields, base, m, i, rest);
    OneRecord(fields, i, WireString, payload, rest, p, marks, r);
    NumbersAreReadable(f.kind, c.items, 0);
    assert Seen(fields, i, marks) == marks;
    assert FieldWire(fields, m, i) == TagWire(f.tag, WireString) + payload;
  }

  lemma PackedIsPut(fields: seq<Field>, base: Value, m: Value, i: nat, rest: seq<byte>)
    requires WellFormed(fields) && IsMessage(fields, base) && IsMessage(fields, m) && i < |fields|
    requires Present(fields, m, i) && fields[i].rule.Repeated? && Packable(fields[i].kind)
    requires CellHolds(fields[i], m.cells[i]) && FieldWellFormed(fields[i])
    requires CellHolds(fields[i], base.cells[i]) && |base.cells[i].items| + |m.cells[i].items| <= fields[i].rule.max
    requires |PackedWire(fields[i].kind, m.cells[i].items, 0)| < 0x1_0000_0000
    ensures var payload := Prefixed(PackedWire(fields[i].kind, m.cells[i].items, 0));
      DecodeField(fields, i, WireCode(WireString), payload + rest, Partial(fields, base, m, i))
        == D.Some(Read(Partial(fields, base, m, i + 1), |payload|))
  {
    hide DecodeFields;
    var f, items := fields[i], m.cells[i].items;
    PrefixedReads(PackedWire(f.kind, items, 0), rest);
    PackedReads(f.kind, f.rule.max, base.cells[i].items, items, 0);
    assert items[..0] == [] && base.cells[i].items + [] == base.cells[i].items;
    forall j | 0 <= j < |items|
      ensures Normal(f.kind, items[j]) == items[j]
    {
    }
    assert NormalItems(f.kind, items) == items;
    PartialNext(fields, base, m, i);
  }

  lemma {:induction false} NumbersAreReadable(k: Kind, items: seq<Value>, j: nat)
    requires KindWellFormed(k) && Packable(k)
    requires (forall j :: 0 <= j < |items| ==> IsOf(k, items[j])) && j <= |items|
    ensures ItemsReadable(k, items, j)
    decreases |items| - j
  {
    if j < |items| {
      NumbersAreReadable(k, items, j + 1);
    }
  }

  /** The message when the first `j` items of field `i` are back as well. */
  function PartialItems(fields: seq<Field>, base: Value, m: Value, i: nat, j: nat): (r: Value)
    requires WellFormed(fields) && IsMessage(fields, base) && IsMessage(fields, m) && i < |fields|
    requires CellHolds(fields[i], m.cells[i]) && FieldWellFormed(fields[i]) && m.cells[i].Many? && j <= |m.cells[i].items|
    ensures IsMessage(fields, r)
  {
    assert CellHolds(fields[i], base.cells[i]);
    WithCell(Partial(fields, base, m, i), i, Many(base.cells[i].items + NormalItems(fields[i].kind, m.cells[i].items)[..j]))
  }

  predicate ItemsAreBack(fields: seq<Field>, base: Value, m: Value, i: nat, j: nat, rest: seq<byte>, seen: set<nat>)
    requires WellFormed(fields) && IsMessage(fields, base) && IsMessage(fields, m) && i < |fields|
    requires CellHolds(fields[i], m.cells[i]) && FieldWellFormed(fields[i]) && m.cells[i].Many? && j <= |m.cells[i].items|
  {
    var items := m.cells[i].items;
    var wire := RecordsWire(fields[i], items, j);
    DecodeFields(fields, wire + rest, PartialItems(fields, base, m, i, j), SeenBefore(fields, i, seen))
      == if ItemsReadable(fields[i].kind, items, j)
         then After(|wire|, DecodeFields(fields, rest, PartialItems(fields, base, m, i, |items|), SeenBefore(fields, i, seen)))
         else D.None
  }

  lemma {:induction false} RecordsRead(fields: seq<Field>, base: Value, m: Value, i: nat, j: nat, rest: seq<byte>, seen: set<nat>)
    requires WellFormed(fields) && IsMessage(fields, base) && IsMessage(fields, m) && i < |fields|
    requires CellHolds(fields[i], m.cells[i]) && FieldWellFormed(fields[i]) && m.cells[i].Many? && j <= |m.cells[i].items|
    requires fields[i].rule.Repeated? && CellHolds(fields[i], base.cells[i])
    requires |base.cells[i].items| + |m.cells[i].items| <= fields[i].rule.max
    requires ItemsEncodable(fields[i].kind, m.cells[i].items, j) && |RecordsWire(fields[i], m.cells[i].items, j)| < 0x1_0000_0000
    requires ItemsRoom(fields[i], m.cells[i].items)
    ensures ItemsAreBack(fields, base, m, i, j, rest, seen)
    decreases m, 1, |m.cells[i].items| - j
  {
    hide DecodeFields;
    var f, c := fields[i], m.cells[i];
    if j == |c.items| {
      assert RecordsWire(f, c.items, j) + rest == rest;
    } else {
      var after := RecordsWire(f, c.items, j + 1) + rest;
      FieldDefaultHolds(f);
      ItemValueReads(f, c.items[j], after);
      RecordsRead(fields, base, m, i, j + 1, rest, seen);
      ItemReads(fields, base, m, i, j, rest, seen);
    }
  }

  lemma {:induction false} ItemValueReads(f: Field, v: Value, after: seq<byte>)
    requires FieldWellFormed(f) && IsOf(f.kind, v) && Encodable(f.kind, v) && |ValueWire(f.kind, v)| < 0x1_0000_0000
    requires IsOf(f.kind, Default(f.kind, f.initial)) && RoomFor(f.kind, Default(f.kind, f.initial), v)
    ensures ItemDecodes(f, v, after)
    decreases v, 5
  {
    hide DecodeFields, DecodeValue;
    ValueReads(f.kind, v, after, Default(f.kind, f.initial));
    FreshItem(f, v);
  }

  /** A new item starts from the defaults. */
  lemma FreshItem(f: Field, v: Value)
    requires FieldWellFormed(f) && IsOf(f.kind, v) && IsOf(f.kind, Default(f.kind, f.initial))
    ensures Merge(f.kind, Default(f.kind, f.initial), v) == Normal(f.kind, v)
  {
  }

  lemma ItemReads(fields: seq<Field>, base: Value, m: Value, i: nat, j: nat, rest: seq<byte>, seen: set<nat>)
    requires WellFormed(fields) && IsMessage(fields, base) && IsMessage(fields, m) && i < |fields|
    requires CellHolds(fields[i], m.cells[i]) && FieldWellFormed(fields[i]) && m.cells[i].Many? && j < |m.cells[i].items|
    requires fields[i].rule.Repeated? && CellHolds(fields[i], base.cells[i])
    requires |base.cells[i].items| + |m.cells[i].items| <= fields[i].rule.max
    requires ItemDecodes(fields[i], m.cells[i].items[j], RecordsWire(fields[i], m.cells[i].items, j + 1) + rest)
    requires ItemsAreBack(fields, base, m, i, j + 1, rest, seen)
    ensures ItemsAreBack(fields, base, m, i, j, rest, seen)
  {
    hide DecodeFields;
    var f, items := fields[i], m.cells[i].items;
    var payload, p := ValueWire(f.kind, items[j]), PartialItems(fields, base, m, i, j);
    var after := RecordsWire(f, items, j + 1) + rest;
    var r := Answer(Readable(f.kind, items[j]), PartialItems(fields, base, m, i, j + 1), |payload|);
    ItemIsPut(fields, base, m, i, j, after);
    var marks, tag := SeenBefore(fields, i, seen), TagWire(f.tag, WireTypeOf(f.kind));
    OneRecord(fields, i, WireTypeOf(f.kind), payload, after, p, marks, r);
    Regroup(tag, payload, RecordsWire(f, items, j + 1), rest);
    assert Seen(fields, i, marks) == marks;
    assert RecordsWire(f, items, j) == tag + payload + RecordsWire(f, items, j + 1);
  }

  lemma Regroup(a: seq<byte>, b: seq<byte>, c: seq<byte>, d: seq<byte>)
    ensures a + b + c + d == a + b + (c + d)
  {
  }

  predicate ItemDecodes(f: Field, v: Value, after: seq<byte>)
    requires FieldWellFormed(f) && IsOf(f.kind, v)
  {
    FieldDefaultHolds(f);
    DecodeValue(f.kind, ValueWire(f.kind, v) + after, Default(f.kind, f.initial))
      == Answer(Readable(f.kind, v), Normal(f.kind, v), |ValueWire(f.kind, v)|)
  }

  lemma ItemIsPut(fields: seq<Field>, base: Value, m: Value, i: nat, j: nat, after: seq<byte>)
    requires WellFormed(fields) && IsMessage(fields, base) && IsMessage(fields, m) && i < |fields|
    requires CellHolds(fields[i], m.cells[i]) && FieldWellFormed(fields[i]) && m.cells[i].Many? && j < |m.cells[i].items|
    requires fields[i].rule.Repeated? && CellHolds(fields[i], base.cells[i])
    requires |base.cells[i].items| + |m.cells[i].items| <= fields[i].rule.max
    requires ItemDecodes(fields[i], m.cells[i].items[j], after)
    ensures var f, v := fields[i], m.cells[i].items[j];
      DecodeField(fields, i, WireCode(WireTypeOf(f.kind)), ValueWire(f.kind, v) + after, PartialItems(fields, base, m, i, j))
        == Answer(Readable(f.kind, v), PartialItems(fields, base, m, i, j + 1), |ValueWire(f.kind, v)|)
  {
    hide DecodeFields;
    var f, c := fields[i], m.cells[i];
    var earlier := base.cells[i].items;
    var all, p := NormalItems(f.kind, c.items), PartialItems(fields, base, m, i, j);
    assert earlier + all[..j] + [all[j]] == earlier + all[..j + 1];
    assert WithCell(p, i, Many(earlier + all[..j + 1])).cells == PartialItems(fields, base, m, i, j + 1).cells;
    var s := ValueWire(f.kind, c.items[j]) + after;
    var w, readable, used := WireCode(WireTypeOf(f.kind)), Readable(f.kind, c.items[j]), |ValueWire(f.kind, c.items[j])|;
    assert p.cells[i] == Many(earlier + all[..j]);
    FieldDefaultHolds(f);
    assert DecodeRecord(f, s, Default(f.kind, f.initial)) == Answer(readable, all[j], used);
    assert DecodeItems(fields, i, w, s, p) == Answer(readable, PartialItems(fields, base, m, i, j + 1), used);
  }

  lemma RecordsAreField(fields: seq<Field>, base: Value, m: Value, i: nat, rest: seq<byte>, seen: set<nat>)
    requires WellFormed(fields) && IsMessage(fields, base) && IsMessage(fields, m) && i < |fields|
    requires CellHolds(fields[i], m.cells[i]) && FieldWellFormed(fields[i]) && m.cells[i].Many?
    requires fields[i].rule.Repeated? && !Packable(fields[i].kind) && Present(fields, m, i)
    requires ItemsAreBack(fields, base, m, i, 0, rest, seen)
    ensures FieldIsBack(fields, base, m, i, rest, seen)
  {
    hide DecodeFields, DecodeField, Normal, Merge, Wire, RecordsWire;
    var all := NormalItems(fields[i].kind, m.cells[i].items);
    assert CellHolds(fields[i], base.cells[i]);
    assert all[..0] == [] && all[..|all|] == all && base.cells[i].items + [] == base.cells[i].items;
    var p := Partial(fields, base, m, i);
    assert p.cells[i := base.cells[i]] == p.cells;
    PartialNext(fields, base, m, i);
  }

  /** Decoding what encoding wrote gives the message back, with the default wherever nothing was
      written, if and only if every written text is terminated. */
  lemma DecodeUndoesEncode(fields: seq<Field>, m: Value)
    requires WellFormed(fields) && IsMessage(fields, m)
    requires AllEncodable(fields, m, 0) && |Wire(fields, m, 0)| < 0x1_0000_0000
    ensures Decode(fields, Wire(fields, m, 0))
         == Answer(AllReadable(fields, m, 0), Normal(Nested(fields), m), |Wire(fields, m, 0)|)
  {
    DefaultsHold(fields);
    RoomInDefaults(Nested(fields), m);
    MessageEnds(fields, Defaults(fields), m, {});
  }

  /** In a message of defaults there is room for every message that can be written. */
  lemma {:induction false} RoomInDefaults(k: Kind, v: Value)
    requires KindWellFormed(k) && IsOf(k, v) && Encodable(k, v) && (k.Nested? ==> IsOf(k, Defaults(k.fields)))
    ensures RoomFor(k, Default(k, v), v)
    decreases v, 4
  {
    if k.Nested? {
      forall i | 0 <= i < |k.fields|
        ensures CellRoom(k.fields, Defaults(k.fields), v, i)
      {
        EncodableField(k.fields, v, 0, i);
        CellHasRoom(k.fields, v, i);
      }
    }
  }

  lemma {:induction false} EncodableField(fields: seq<Field>, m: Value, i: nat, j: nat)
    requires WellFormed(fields) && IsMessage(fields, m) && i <= j < |fields| && AllEncodable(fields, m, i)
    ensures FieldEncodable(fields, m, j)
    decreases j - i
  {
    if i < j {
      EncodableField(fields, m, i + 1, j);
    }
  }

  lemma {:induction false} EncodableItem(k: Kind, items: seq<Value>, i: nat, j: nat)
    requires KindWellFormed(k) && forall j :: 0 <= j < |items| ==> IsOf(k, items[j])
    requires i <= j < |items| && ItemsEncodable(k, items, i)
    ensures Encodable(k, items[j])
    decreases j - i
  {
    if i < j {
      EncodableItem(k, items, i + 1, j);
    }
  }

  lemma {:induction false} CellHasRoom(fields: seq<Field>, m: Value, i: nat)
    requires WellFormed(fields) && IsMessage(fields, m) && i < |fields| && FieldEncodable(fields, m, i)
    requires IsMessage(fields, Defaults(fields))
    ensures CellRoom(fields, Defaults(fields), m, i)
    decreases m, 2
  {
    var f, c := fields[i], m.cells[i];
    assert CellHolds(f, c) && FieldWellFormed(f);
    FieldDefaultHolds(f);
    if Present(fields, m, i) && c.Many? {
      forall j | 0 <= j < |c.items|
        ensures RoomFor(f.kind, Default(f.kind, f.initial), c.items[j])
      {
        EncodableItem(f.kind, c.items, 0, j);
        RoomInDefaults(f.kind, c.items[j]);
      }
    } else if Present(fields, m, i) {
      RoomInDefaults(f.kind, c.value);
    }
  }

  /** The field's union stores another member, or none. */
  predicate OtherMember(f: Field, m: Value)
    requires m.Message? && (f.rule.OneOf? ==> f.rule.group < |m.which|)
  {
    f.rule.OneOf? && m.which[f.rule.group] != f.tag
  }

  /** What the fields of a merged message are: the last value of a field wins, items are added behind those that
      are there, and nested messages are merged, unless a union stored another member: then the new one starts afresh. */
  lemma MergedField(fields: seq<Field>, base: Value, m: Value, i: nat)
    requires WellFormed(fields) && IsMessage(fields, base) && IsMessage(fields, m) && i < |fields|
    ensures var f, c, was, now := fields[i], m.cells[i], base.cells[i], Merge(Nested(fields), base, m).cells[i];
      && CellHolds(f, c) && CellHolds(f, was) && FieldWellFormed(f)
      && (!Present(fields, m, i) ==> now == was)
      && (Present(fields, m, i) && c.Many? ==> now == Many(was.items + NormalItems(f.kind, c.items)))
      && (Present(fields, m, i) && !c.Many? && !f.kind.Nested? ==> !now.Many? && now.value == c.value)
      && (Present(fields, m, i) && !c.Many? && f.kind.Nested? && OtherMember(f, base) ==>
            !now.Many? && now.value == Normal(f.kind, c.value))
      && (Present(fields, m, i) && !c.Many? && f.kind.Nested? && !OtherMember(f, base) ==>
            !now.Many? && now.value == Merge(f.kind, was.value, c.value))
      && (Present(fields, m, i) && f.rule.Optional? ==> now.Maybe? && now.has)
      && (Present(fields, m, i) && f.rule.OneOf? ==> Merge(Nested(fields), base, m).which[f.rule.group] == f.tag)
  {
    var f, n := fields[i], |fields|;
    assert Merge(Nested(fields), base, m).cells[i] == MergeCell(fields, base, m, i);
    assert CellHolds(f, m.cells[i]) && CellHolds(f, base.cells[i]) && FieldWellFormed(f);
    if f.rule.OneOf? && Present(fields, m, i) {
      assert Chosen(fields, f.tag, f.rule.group, n);
    }
    if f.kind.Nested? && !m.cells[i].Many? {
      FieldDefaultHolds(f);
      FreshItem(f, m.cells[i].value);
    }
  }

  /** The bytes of two messages, one behind the other, are read as the two messages merged. */
  lemma ConcatenationMerges(fields: seq<Field>, a: Value, b: Value)
    requires WellFormed(fields) && IsMessage(fields, a) && IsMessage(fields, b)
    requires AllEncodable(fields, a, 0) && |Wire(fields, a, 0)| < 0x1_0000_0000
    requires AllEncodable(fields, b, 0) && |Wire(fields, b, 0)| < 0x1_0000_0000
    requires RoomFor(Nested(fields), Normal(Nested(fields), a), b)
    ensures var both := Wire(fields, a, 0) + Wire(fields, b, 0);
      Decode(fields, both)
        == Answer(AllReadable(fields, a, 0) && AllReadable(fields, b, 0), Merge(Nested(fields), Normal(Nested(fields), a), b), |both|)
  {
    hide DecodeFields, AllReadable, AllEncodable, Wire;
    DefaultsHold(fields);
    var none, first := Defaults(fields), Normal(Nested(fields), a);
    RoomInDefaults(Nested(fields), a);
    PartialFirst(fields, none, a);
    MessageReads(fields, none, a, 0, Wire(fields, b, 0), {});
    MessageEnds(fields, first, b, SeenBefore(fields, |fields|, {}));
  }

  // ---- The message that comes back means the same ----

  /** Equal up to values under a false has-flag and members that no union stores. */
  predicate Same(k: Kind, v: Value, w: Value)
    requires KindWellFormed(k) && IsOf(k, v) && IsOf(k, w)
    decreases v, 2
  {
    if k.Nested? then forall i :: 0 <= i < |k.fields| ==> SameCell(k.fields, v, w, i) else v == w
  }

  predicate SameCell(fields: seq<Field>, m: Value, n: Value, i: nat)
    requires WellFormed(fields) && IsMessage(fields, m) && IsMessage(fields, n) && i < |fields|
    decreases m, 1
  {
    var f, c, d := fields[i], m.cells[i], n.cells[i];
    assert CellHolds(f, c) && CellHolds(f, d) && FieldWellFormed(f);
    match f.rule
    case Repeated(_) => |c.items| == |d.items| && forall j :: 0 <= j < |c.items| ==> Same(f.kind, c.items[j], d.items[j])
    case Optional => c.has == d.has && (c.has ==> Same(f.kind, c.value, d.value))
    case OneOf(group) =>
      (m.which[group] == f.tag <==> n.which[group] == f.tag) && (m.which[group] == f.tag ==> Same(f.kind, c.value, d.value))
    case _ => Same(f.kind, c.value, d.value)
  }

  /** What is not written because it is zero comes back as the default. */
  lemma {:induction false} ZeroIsDefault(k: Kind, v: Value, initial: Value)
    requires KindWellFormed(k) && IsOf(k, v) && IsZero(k, v) && IsOf(k, Default(k, initial))
    requires k.Nested? || (k.Raw? && IsOf(k, initial)) || (!initial.Message? && Zero(initial))
    ensures Same(k, v, Default(k, initial))
    decreases v, 2
  {
    if k.Nested? {
      DefaultsHold(k.fields);
      forall i | 0 <= i < |k.fields|
        ensures SameCell(k.fields, v, Defaults(k.fields), i)
      {
        CellIsDefault(k.fields, v, i);
      }
    }
  }

  lemma {:induction false} CellIsDefault(fields: seq<Field>, m: Value, i: nat)
    requires WellFormed(fields) && IsMessage(fields, m) && i < |fields| && IsDefault(fields, m, i)
    requires IsMessage(fields, Defaults(fields))
    ensures SameCell(fields, m, Defaults(fields), i)
    decreases m, 1
  {
    var f, c := fields[i], m.cells[i];
    assert CellHolds(f, c) && FieldWellFormed(f);
    assert CellHolds(f, DefaultCell(f));
    if f.rule.Singular? {
      ZeroIsDefault(f.kind, c.value, f.initial);
    }
  }

  lemma {:induction false} NormalIsSame(k: Kind, v: Value)
    requires KindWellFormed(k) && IsOf(k, v)
    ensures Same(k, v, Normal(k, v))
    decreases v, 2
  {
    if k.Nested? {
      DefaultsHold(k.fields);
      forall i | 0 <= i < |k.fields|
        ensures SameCell(k.fields, v, Normal(k, v), i)
      {
        NormalCellIsSame(k.fields, v, i);
      }
    }
  }

  lemma {:induction false} NormalCellIsSame(fields: seq<Field>, m: Value, i: nat)
    requires WellFormed(fields) && IsMessage(fields, m) && i < |fields|
    requires IsMessage(fields, Defaults(fields))
    ensures SameCell(fields, m, Partial(fields, Defaults(fields), m, |fields|), i)
    decreases m, 1
  {
    var f, c, n := fields[i], m.cells[i], Partial(fields, Defaults(fields), m, |fields|);
    assert CellHolds(f, c) && FieldWellFormed(f);
    assert n.cells[i] == MergeCell(fields, Defaults(fields), m, i);
    if f.rule.OneOf? {
      var group := f.rule.group;
      assert m.which[group] == f.tag ==> Chosen(fields, m.which[group], group, |fields|);
      assert n.which[group] == if Chosen(fields, m.which[group], group, |fields|) then m.which[group] else 0;
    }
    if Present(fields, m, i) {
      if c.Many? {
        forall j | 0 <= j < |c.items|
          ensures Same(f.kind, c.items[j], Normal(f.kind, c.items[j]))
        {
          NormalIsSame(f.kind, c.items[j]);
        }
      } else {
        FieldDefaultHolds(f);
        FreshItem(f, c.value);
        assert BaseOf(fields, Defaults(fields), i) == Default(f.kind, f.initial);
        NormalIsSame(f.kind, c.value);
      }
    } else if f.rule.Singular? {
      FieldDefaultHolds(f);
      ZeroIsDefault(f.kind, c.value, f.initial);
    }
  }

  /** The round trip, for the caller. */
  lemma RoundTripIff(fields: seq<Field>, m: Value)
    requires WellFormed(fields) && IsMessage(fields, m)
    requires AllEncodable(fields, m, 0) && |Wire(fields, m, 0)| < 0x1_0000_0000
    ensures var r := Decode(fields, Wire(fields, m, 0));
      && (r.Some? <==> AllReadable(fields, m, 0))
      && (r.Some? ==> r.value.used == |Wire(fields, m, 0)| && Same(Nested(fields), m, r.value.value))
  {
    DecodeUndoesEncode(fields, m);
    NormalIsSame(Nested(fields), m);
  }

  /** Two letters in a buffer of two bytes: they are written, and refused when they are read. */
  const TWO_BYTES := [Field(1, Text(2), Required, Data([]))]
  const TWO_LETTERS := Message([One(Data([65, 66]))], [0])

  lemma UnterminatedTextIsRefused()
    ensures WellFormed(TWO_BYTES) && IsMessage(TWO_BYTES, TWO_LETTERS) && AllEncodable(TWO_BYTES, TWO_LETTERS, 0)
    ensures Wire(TWO_BYTES, TWO_LETTERS, 0) == [10, 2, 65, 66] && Decode(TWO_BYTES, [10, 2, 65, 66]).None?
  {
    var f, c := TWO_BYTES[0], TWO_LETTERS.cells[0];
    assert IsOf(f.kind, f.initial) && KindWellFormed(f.kind) && FieldWellFormed(f);
    assert IsOf(f.kind, c.value) && CellHolds(f, c) && Holds(TWO_BYTES, TWO_LETTERS);
    assert Present(TWO_BYTES, TWO_LETTERS, 0);
    assert Varint(10) == [10] && Varint(2) == [2];
    assert ValueWire(f.kind, c.value) == [2, 65, 66];
    assert RecordWire(f, c.value) == [10, 2, 65, 66];
    assert FieldWire(TWO_BYTES, TWO_LETTERS, 0) == [10, 2, 65, 66];
    assert Wire(TWO_BYTES, TWO_LETTERS, 1) == [] && AllEncodable(TWO_BYTES, TWO_LETTERS, 1);
    assert !FieldReadable(TWO_BYTES, TWO_LETTERS, 0);
    DecodeUndoesEncode(TWO_BYTES, TWO_LETTERS);
  }
}
