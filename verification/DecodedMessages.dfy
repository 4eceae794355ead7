/** What the decoder makes of any bytes fits the message's struct (pb_decode.c). */
module DecodedMessages {
  import opened Bytes
  import opened Messages
  import opened WireFormat
  import opened WireReader
  import opened RoundTrip

  /** No array, byte string or text is larger than the room that the struct has for it. */
  predicate Fits(k: Kind, v: Value)
    requires KindWellFormed(k) && IsOf(k, v)
    decreases v, 2
  {
    HasRoom(k, v) && (k.Nested? ==> forall i :: 0 <= i < |k.fields| ==> CellFits(k.fields, v, i))
  }

  predicate CellFits(fields: seq<Field>, m: Value, i: nat)
    requires WellFormed(fields) && IsMessage(fields, m) && i < |fields|
    decreases m, 1
  {
    var f, c := fields[i], m.cells[i];
    assert CellHolds(f, c) && FieldWellFormed(f);
    if c.Many? then |c.items| <= f.rule.max && forall j :: 0 <= j < |c.items| ==> Fits(f.kind, c.items[j])
    else Fits(f.kind, c.value)
  }

  predicate MessageFits(fields: seq<Field>, m: Value)
    requires WellFormed(fields) && IsMessage(fields, m)
  {
    Fits(Nested(fields), m)
  }

  // ---- Defaults ----

  lemma {:induction false} DefaultFits(f: Field)
    requires FieldWellFormed(f) && IsOf(f.kind, Default(f.kind, f.initial))
    ensures Fits(f.kind, Default(f.kind, f.initial))
    decreases f, 2
  {
    KindDefaultFits(f.kind, f.initial);
  }

  lemma {:induction false} KindDefaultFits(k: Kind, initial: Value)
    requires KindWellFormed(k) && IsOf(k, Default(k, initial)) && HasRoom(k, Default(k, initial))
    ensures Fits(k, Default(k, initial))
    decreases k, 1
  {
    if k.Nested? {
      DefaultsFit(k.fields);
    }
  }

  lemma {:induction false} DefaultsFit(fields: seq<Field>)
    requires WellFormed(fields)
    ensures IsMessage(fields, Defaults(fields)) && MessageFits(fields, Defaults(fields))
    decreases fields, 0
  {
    DefaultsHold(fields);
    forall i | 0 <= i < |fields|
      ensures CellFits(fields, Defaults(fields), i)
    {
      var f := fields[i];
      assert FieldWellFormed(f) && CellHolds(f, DefaultCell(f));
      FieldDefaultHolds(f);
      DefaultFits(f);
    }
  }

  // ---- Decoding ----

  lemma {:induction false} RecordFits(f: Field, s: seq<byte>, base: Value)
    requires FieldWellFormed(f) && (f.kind.Nested? ==> IsOf(f.kind, base) && Fits(f.kind, base))
    requires DecodeRecord(f, s, base).Some?
    ensures Fits(f.kind, DecodeRecord(f, s, base).value.value)
    decreases f, 6
  {
    ValueFits(f.kind, s, base);
  }

  lemma {:induction false} ValueFits(k: Kind, s: seq<byte>, base: Value)
    requires KindWellFormed(k) && (k.Nested? ==> IsOf(k, base) && Fits(k, base))
    requires DecodeValue(k, s, base).Some?
    ensures Fits(k, DecodeValue(k, s, base).value.value)
    decreases k, 5
  {
    if k.Nested? {
      hide DecodeFields;
      FieldsFit(k.fields, Contents(s, Substring(s).value), base, {});
    }
  }

  lemma {:induction false} FieldsFit(fields: seq<Field>, s: seq<byte>, m: Value, seen: set<nat>)
    requires WellFormed(fields) && IsMessage(fields, m) && MessageFits(fields, m)
    requires DecodeFields(fields, s, m, seen).Some?
    ensures MessageFits(fields, DecodeFields(fields, s, m, seen).value.value)
    decreases fields, 3, |s|
  {
    if s != [] {
      var d := Varint32(s).value;
      var rest, i := s[d.used..], FieldIterators.IndexOf(fields, d.value / 8);
      if d.value != 0 && i == |fields| {
        FieldsFit(fields, rest[Skip(d.value % 8, rest).value..], m, seen);
      } else if d.value != 0 {
        var read := DecodeField(fields, i, d.value % 8, rest, m).value;
        FieldFits(fields, i, d.value % 8, rest, m);
        FieldsFit(fields, rest[read.used..], read.value, Seen(fields, i, seen));
      }
    }
  }

  lemma {:induction false} FieldFits(fields: seq<Field>, i: nat, wire: nat, s: seq<byte>, m: Value)
    requires WellFormed(fields) && IsMessage(fields, m) && i < |fields| && MessageFits(fields, m)
    requires DecodeField(fields, i, wire, s, m).Some?
    ensures MessageFits(fields, DecodeField(fields, i, wire, s, m).value.value)
    decreases fields, 2
  {
    var f, c, n := fields[i], m.cells[i], DecodeField(fields, i, wire, s, m).value.value;
    assert CellHolds(f, c) && FieldWellFormed(f) && CellFits(fields, m, i);
    FieldDefaultHolds(f);
    DefaultFits(f);
    if f.rule.Repeated? {
      ItemsFit(fields, i, wire, s, m);
    } else if f.rule.OneOf? {
      RecordFits(f, s, if m.which[f.rule.group] == f.tag then c.value else Default(f.kind, f.initial));
    } else {
      RecordFits(f, s, c.value);
    }
    forall j | 0 <= j < |fields|
      ensures CellFits(fields, n, j)
    {
      assert CellFits(fields, m, j);
    }
  }

  lemma {:induction false} ItemsFit(fields: seq<Field>, i: nat, wire: nat, s: seq<byte>, m: Value)
    requires WellFormed(fields) && IsMessage(fields, m) && i < |fields| && fields[i].rule.Repeated?
    requires CellFits(fields, m, i) && DecodeItems(fields, i, wire, s, m).Some?
    ensures CellFits(fields, DecodeItems(fields, i, wire, s, m).value.value, i)
    decreases fields, 1
  {
    var f, c := fields[i], m.cells[i];
    assert CellHolds(f, c) && FieldWellFormed(f);
    FieldDefaultHolds(f);
    if wire == WireCode(WireString) && Packable(f.kind) {
      PackedFit(f.kind, f.rule.max, Contents(s, Substring(s).value), c.items);
    } else {
      DefaultFits(f);
      RecordFits(f, s, Default(f.kind, f.initial));
    }
  }

  lemma {:induction false} PackedFit(k: Kind, max: nat, s: seq<byte>, items: seq<Value>)
    requires Packable(k) && (forall j :: 0 <= j < |items| ==> IsOf(k, items[j])) && |items| <= max
    ensures DecodePacked(k, max, s, items).Some? ==> |DecodePacked(k, max, s, items).value| <= max
    decreases |s|
  {
    if s != [] && |items| < max && DecodeNumber(k, s).Some? {
      var read := DecodeNumber(k, s).value;
      PackedFit(k, max, s[read.used..], items + [read.value]);
    }
  }

  // ---- Encoding it again ----

  lemma {:induction false} FittingIsWritable(k: Kind, v: Value)
    requires KindWellFormed(k) && IsOf(k, v) && Fits(k, v)
    ensures Encodable(k, v) && Readable(k, v)
    decreases v, 4
  {
    if k.Nested? {
      FittingMessage(k.fields, v, 0);
    }
  }

  lemma {:induction false} FittingMessage(fields: seq<Field>, m: Value, i: nat)
    requires WellFormed(fields) && IsMessage(fields, m) && MessageFits(fields, m) && i <= |fields|
    ensures AllEncodable(fields, m, i) && AllReadable(fields, m, i)
    decreases m, 3, |fields| - i
  {
    if i < |fields| {
      var f, c := fields[i], m.cells[i];
      assert CellHolds(f, c) && FieldWellFormed(f) && CellFits(fields, m, i);
      if c.Many? {
        FittingItems(f.kind, c.items, 0);
      } else {
        FittingIsWritable(f.kind, c.value);
      }
      FittingMessage(fields, m, i + 1);
    }
  }

  lemma {:induction false} FittingItems(k: Kind, items: seq<Value>, j: nat)
    requires KindWellFormed(k) && (forall j :: 0 <= j < |items| ==> IsOf(k, items[j]) && Fits(k, items[j])) && j <= |items|
    ensures ItemsEncodable(k, items, j) && ItemsReadable(k, items, j)
    decreases items, 1, |items| - j
  {
    if j < |items| {
      FittingIsWritable(k, items[j]);
      FittingItems(k, items, j + 1);
    }
  }

  /** Whatever the bytes: a message that decodes fits its struct, and encoding it writes bytes
      that decode to the same message. */
  lemma DecodedIsWritable(fields: seq<Field>, s: seq<byte>)
    requires WellFormed(fields) && Decode(fields, s).Some?
    ensures var m := Decode(fields, s).value.value;
      && MessageFits(fields, m) && AllEncodable(fields, m, 0)
      && (|Wire(fields, m, 0)| < 0x1_0000_0000 ==>
            var again := Decode(fields, Wire(fields, m, 0));
            again.Some? && again.value.used == |Wire(fields, m, 0)| && Same(Nested(fields), m, again.value.value))
  {
    DefaultsFit(fields);
    FieldsFit(fields, s, Defaults(fields), {});
    var m := Decode(fields, s).value.value;
    FittingMessage(fields, m, 0);
    if |Wire(fields, m, 0)| < 0x1_0000_0000 {
      RoundTripIff(fields, m);
    }
  }
}
