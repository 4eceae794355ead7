/** nanopb's encoder (pb_encode.c): a message with nested messages is first counted by a
    stream that writes nothing, and then written. */
module PbEncode {
  import opened Bytes
  import opened Coding
  import opened Concatenation
  import opened Messages
  import opened WireFormat
  import opened FieldIterators

  datatype Outcome = Done | StreamFull | ArraySizeExceeded | BytesSizeExceeded | SubmessageSizeChanged

  class OutStream {
    /** No callback: the bytes are only counted. */
    var sizing: bool
    /** What stands behind `state`: all that was put into the buffer. */
    var out: seq<byte>
    var limit: nat
    var written: nat

    ghost predicate Valid()
      reads this
    {
      !sizing ==> written <= limit
    }

    constructor (sizing: bool, out: seq<byte>, limit: nat)
      ensures Valid() && this.sizing == sizing && this.out == out && this.limit == limit && written == 0
    {
      this.sizing, this.out, this.limit, written := sizing, out, limit, 0;
    }

    /** The outcome `r` of a call that has to write `s`, if that is possible: it is done, and
        then `s` is counted and (unless only sizing) appended, exactly when it fits. */
    twostate predicate Wrote(r: Outcome, s: seq<byte>, possible: bool)
      reads this
    {
      && Valid() && sizing == old(sizing) && limit == old(limit) && !r.SubmessageSizeChanged?
      && (r.Done? <==> possible && (sizing || old(written) + |s| <= limit))
      && (r.Done? ==> written == old(written) + |s| && out == old(out) + if sizing then [] else s)
    }

    /** pb_write. */
    method Write(s: seq<byte>) returns (r: Outcome)
      requires Valid()
      modifies this
      ensures Wrote(r, s, true)
    {
      if |s| > 0 && !sizing {
        if written + |s| > limit {
          return StreamFull;
        }
        out := out + s;
      }
      written := written + |s|;
      return Done;
    }

    /** pb_encode_varint. */
    method EncodeVarint(value: nat) returns (r: Outcome)
      requires Valid()
      modifies this
      ensures Wrote(r, Varint(value), true)
    {
      if value <= 0x7F {
        r := Write([value]);
        return;
      }
      var buffer: seq<byte> := [];
      var left := value;
      while left != 0
        invariant left != 0 ==> buffer + Varint(left) == Varint(value)
        invariant left == 0 ==>
          (|buffer| > 0 && buffer[|buffer| - 1] >= 0x80
           && buffer[..|buffer| - 1] + [buffer[|buffer| - 1] - 0x80] == Varint(value))
      {
        buffer := buffer + [left % 0x80 + 0x80];
        left := left / 0x80;
      }
      buffer := buffer[|buffer| - 1 := buffer[|buffer| - 1] - 0x80];
      r := Write(buffer);
    }

    /** pb_encode_tag. */
    method EncodeTag(tag: nat, w: WireType) returns (r: Outcome)
      requires Valid()
      modifies this
      ensures Wrote(r, TagWire(tag, w), true)
    {
      r := EncodeVarint(8 * tag + WireCode(w));
    }

    /** pb_encode_string. */
    method EncodeString(s: seq<byte>) returns (r: Outcome)
      requires Valid()
      modifies this
      ensures Wrote(r, Prefixed(s), true)
    {
      r := EncodeVarint(|s|);
      if r.Done? {
        r := Write(s);
      }
    }

    /** The encoders of numbers: pb_enc_bool and its fellows. */
    method EncodeNumber(k: Kind, v: Value) returns (r: Outcome)
      requires Valid() && KindWellFormed(k) && IsOf(k, v) && Packable(k)
      modifies this
      ensures Wrote(r, ValueWire(k, v), true)
    {
      if k.Fixed32? {
        r := Write(EncodeFixed32(v.n));
      } else if k.Fixed64? {
        r := Write(Fixed64Wire(v.n));
      } else {
        var doubled := (v.n + v.n) % Span(8);
        var code :=
          if k.ZigZag? then if v.n < 0 then Span(8) - 1 - doubled else doubled
          else if v.n < 0 then v.n + Span(8)
          else v.n;
        VarintCode(k, v);
        r := EncodeVarint(code);
      }
    }

    /** The encoder of one value: a number, bytes, a text or a message. */
    method EncodeValue(k: Kind, v: Value) returns (r: Outcome)
      requires Valid() && KindWellFormed(k) && IsOf(k, v)
      modifies this
      ensures Wrote(r, ValueWire(k, v), Encodable(k, v))
      decreases v, 4
    {
      if Packable(k) {
        r := EncodeNumber(k, v);
        return;
      }
      match k
      case Counted(capacity) =>
        if |v.bytes| > capacity {
          return BytesSizeExceeded;
        }
        r := EncodeString(v.bytes);
      case Text(_) =>
        r := EncodeString(v.bytes);
      case Raw(_) =>
        r := EncodeString(v.bytes);
      case Nested(fields) =>
        r := EncodeSubmessage(fields, v);
    }

    /** pb_encode_submessage. */
    method EncodeSubmessage(fields: seq<Field>, m: Value) returns (r: Outcome)
      requires Valid() && WellFormed(fields) && m.Message? && Holds(fields, m)
      modifies this
      ensures Wrote(r, Prefixed(Wire(fields, m, 0)), AllEncodable(fields, m, 0))
      decreases m, 3, |fields| + 2
    {
      var sub := new OutStream(true, [], 0);
      r := sub.Encode(fields, m);
      if !r.Done? {
        return;
      }
      var size := sub.written;
      r := EncodeVarint(size);
      if !r.Done? {
        return;
      }
      if sizing {
        written := written + size;
        return;
      }
      if written + size > limit {
        return StreamFull;
      }
      sub.sizing, sub.out, sub.limit, sub.written := false, out, size, 0;
      r := sub.Encode(fields, m);
      written := written + sub.written;
      out := sub.out;
      if sub.written != size {
        r := SubmessageSizeChanged;
      }
      Assoc(old(out), Varint(size), Wire(fields, m, 0));
    }

    /** pb_encode. */
    method Encode(fields: seq<Field>, m: Value) returns (r: Outcome)
      requires Valid() && WellFormed(fields) && m.Message? && Holds(fields, m)
      modifies this
      ensures Wrote(r, Wire(fields, m, 0), AllEncodable(fields, m, 0))
      decreases m, 3, |fields| + 1
    {
      hide FieldWire, FieldEncodable;
      r := Done;
      var iter := new FieldIterator(fields);
      var more := |fields| > 0;
      ghost var done: seq<byte>, i: nat := [], 0;
      while more
        invariant iter.Valid() && iter.fields == fields && fresh(iter) && iter.pos == if more then i else 0
        invariant i <= |fields| && more == (i < |fields|)
        invariant r.Done? && Wrote(r, done, true) && done + Wire(fields, m, i) == Wire(fields, m, 0)
        invariant AllEncodable(fields, m, i) == AllEncodable(fields, m, 0)
        decreases |fields| - i
      {
        ghost var next := FieldWire(fields, m, i);
        r := EncodeField(fields, m, iter.pos);
        Assoc(done, next, Wire(fields, m, i + 1));
        if !r.Done? {
          return;
        }
        Assoc(old(out), done, next);
        done, i := done + next, i + 1;
        more := iter.Next();
      }
    }

    /** encode_basic_field. */
    method EncodeField(fields: seq<Field>, m: Value, i: nat) returns (r: Outcome)
      requires Valid() && WellFormed(fields) && m.Message? && Holds(fields, m) && i < |fields|
      modifies this
      ensures Wrote(r, FieldWire(fields, m, i), FieldEncodable(fields, m, i))
      decreases m, 2
    {
      var f, c := fields[i], m.cells[i];
      assert CellHolds(f, c) && FieldWellFormed(f);
      match f.rule
      case Required =>
        r := EncodeRecord(f, c.value);
      case Optional =>
        r := Done;
        if c.has {
          r := EncodeRecord(f, c.value);
        }
      case Singular =>
        r := Done;
        if !IsDefault(fields, m, i) {
          r := EncodeRecord(f, c.value);
        }
      case Repeated(_) =>
        r := EncodeArray(f, c.items);
      case OneOf(group) =>
        r := Done;
        if m.which[group] == f.tag {
          r := EncodeRecord(f, c.value);
        }
    }

    /** A tag and a value. */
    method EncodeRecord(f: Field, v: Value) returns (r: Outcome)
      requires Valid() && FieldWellFormed(f) && IsOf(f.kind, v)
      modifies this
      ensures Wrote(r, RecordWire(f, v), Encodable(f.kind, v))
      decreases v, 5
    {
      r := EncodeTag(f.tag, WireTypeOf(f.kind));
      if r.Done? {
        r := EncodeValue(f.kind, v);
        Assoc(old(out), TagWire(f.tag, WireTypeOf(f.kind)), ValueWire(f.kind, v));
      }
    }

    /** encode_array: one packed record where the kind allows it, else a record for each item. */
    method EncodeArray(f: Field, items: seq<Value>) returns (r: Outcome)
      requires Valid() && FieldWellFormed(f) && f.rule.Repeated? && forall j :: 0 <= j < |items| ==> IsOf(f.kind, items[j])
      modifies this
      ensures Wrote(r, ArrayWire(f, items), |items| <= f.rule.max && ItemsEncodable(f.kind, items, 0))
      decreases items, 4
    {
      if |items| == 0 {
        return Done;
      }
      if |items| > f.rule.max {
        return ArraySizeExceeded;
      }
      if Packable(f.kind) {
        r := EncodePacked(f, items);
        return;
      }
      r := Done;
      var j := 0;
      ghost var done: seq<byte> := [];
      while j < |items|
        invariant j <= |items| && r.Done? && Wrote(r, done, true)
        invariant done + RecordsWire(f, items, j) == RecordsWire(f, items, 0)
        invariant ItemsEncodable(f.kind, items, j) == ItemsEncodable(f.kind, items, 0)
      {
        ghost var next := RecordWire(f, items[j]);
        r := EncodeRecord(f, items[j]);
        Assoc(done, next, RecordsWire(f, items, j + 1));
        if !r.Done? {
          return;
        }
        Assoc(old(out), done, next);
        done, j := done + next, j + 1;
      }
    }

    /** The size of the packed items is computed, or counted by a stream of its own. */
    method EncodePacked(f: Field, items: seq<Value>) returns (r: Outcome)
      requires Valid() && FieldWellFormed(f) && Packable(f.kind) && forall j :: 0 <= j < |items| ==> IsOf(f.kind, items[j])
      modifies this
      ensures Wrote(r, TagWire(f.tag, WireString) + Prefixed(PackedWire(f.kind, items, 0)), ItemsEncodable(f.kind, items, 0))
      decreases items, 3
    {
      PackedEncodable(f.kind, items, 0);
      ghost var packed := PackedWire(f.kind, items, 0);
      r := EncodeTag(f.tag, WireString);
      if !r.Done? {
        return;
      }
      var size := PackedSize(f.kind, items);
      r := EncodeVarint(size);
      if !r.Done? {
        return;
      }
      Assoc(old(out), TagWire(f.tag, WireString), Varint(size));
      if sizing {
        written := written + size;
        return;
      }
      Assoc(old(out), TagWire(f.tag, WireString) + Varint(size), packed);
      Assoc(TagWire(f.tag, WireString), Varint(size), packed);
      r := EncodeItems(f.kind, items);
    }

    /** A multiple of the width, or what a stream that writes nothing counts. */
    method PackedSize(k: Kind, items: seq<Value>) returns (size: nat)
      requires KindWellFormed(k) && Packable(k) && forall j :: 0 <= j < |items| ==> IsOf(k, items[j])
      ensures size == |PackedWire(k, items, 0)|
      decreases items, 2
    {
      if k.Fixed32? {
        size := 4 * |items|;
        PackedFixed(k, items, 0);
      } else if k.Fixed64? {
        size := 8 * |items|;
        PackedFixed(k, items, 0);
      } else {
        var sub := new OutStream(true, [], 0);
        var r := sub.EncodeItems(k, items);
        size := sub.written;
      }
    }

    method EncodeItems(k: Kind, items: seq<Value>) returns (r: Outcome)
      requires Valid() && KindWellFormed(k) && Packable(k) && forall j :: 0 <= j < |items| ==> IsOf(k, items[j])
      modifies this
      ensures Wrote(r, PackedWire(k, items, 0), true)
      decreases items, 1
    {
      hide ValueWire;
      r := Done;
      var j := 0;
      ghost var done: seq<byte> := [];
      while j < |items|
        invariant j <= |items| && r.Done? && Wrote(r, done, true)
        invariant done + PackedWire(k, items, j) == PackedWire(k, items, 0)
      {
        ghost var next := ValueWire(k, items[j]);
        r := EncodeValue(k, items[j]);
        Assoc(done, next, PackedWire(k, items, j + 1));
        if !r.Done? {
          return;
        }
        Assoc(old(out), done, next);
        done, j := done + next, j + 1;
      }
    }
  }

  lemma VarintCode(k: Kind, v: Value)
    requires KindWellFormed(k) && IsOf(k, v) && Packable(k) && !k.Fixed32? && !k.Fixed64?
    ensures var doubled := (v.n + v.n) % Span(8);
      VarintOf(k, v.n) == if k.ZigZag? then if v.n < 0 then Span(8) - 1 - doubled else doubled
                          else if v.n < 0 then v.n + Span(8)
                          else v.n
  {
  }

  function ArrayWire(f: Field, items: seq<Value>): seq<byte>
    requires FieldWellFormed(f) && forall j :: 0 <= j < |items| ==> IsOf(f.kind, items[j])
  {
    if |items| == 0 then []
    else if Packable(f.kind) then TagWire(f.tag, WireString) + Prefixed(PackedWire(f.kind, items, 0))
    else RecordsWire(f, items, 0)
  }

  lemma {:induction false} PackedFixed(k: Kind, items: seq<Value>, j: nat)
    requires k.Fixed32? || k.Fixed64?
    requires (forall j :: 0 <= j < |items| ==> IsOf(k, items[j])) && j <= |items|
    ensures |PackedWire(k, items, j)| == (|items| - j) * if k.Fixed32? then 4 else 8
    decreases |items| - j
  {
    if j < |items| {
      PackedFixed(k, items, j + 1);
    }
  }

  lemma {:induction false} PackedEncodable(k: Kind, items: seq<Value>, j: nat)
    requires KindWellFormed(k) && Packable(k)
    requires (forall j :: 0 <= j < |items| ==> IsOf(k, items[j])) && j <= |items|
    ensures ItemsEncodable(k, items, j)
    decreases |items| - j
  {
    if j < |items| {
      PackedEncodable(k, items, j + 1);
    }
  }
}
