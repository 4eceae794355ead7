/** nanopb's decoder (pb_decode.c): streams over a buffer, with substreams of limited length. */
module PbDecode {
  import opened Bytes
  import opened Coding
  import D = DbFormat
  import opened Messages
  import opened WireFormat
  import opened WireReader
  import opened FieldIterators

  class InStream {
    const source: seq<byte>
    /** Where `state` points to, and bytes_left. */
    var pos: nat
    var left: nat

    ghost predicate Valid()
      reads this
    {
      pos + left <= |source|
    }

    ghost function Remaining(): (s: seq<byte>)
      reads this
      requires Valid()
      ensures |s| == left
    {
      source[pos..pos + left]
    }

    constructor (source: seq<byte>, pos: nat, left: nat)
      requires pos + left <= |source|
      ensures Valid() && this.source == source && this.pos == pos && this.left == left
    {
      this.source, this.pos, this.left := source, pos, left;
    }

    /** `n` bytes were consumed. */
    twostate predicate Took(n: nat)
      requires old(Valid())
      reads this
    {
      && n <= old(left) && pos == old(pos) + n && left == old(left) - n
      && Valid() && Remaining() == old(Remaining())[n..]
    }

    /** pb_read. */
    method Read(count: nat) returns (ok: bool, s: seq<byte>)
      requires Valid()
      modifies this
      ensures Valid() && ok == (count <= old(left))
      ensures ok ==> Took(count) && s == old(Remaining())[..count]
    {
      if count == 0 {
        return true, [];
      }
      if left < count {
        return false, [];
      }
      ok, s := true, source[pos..pos + count];
      pos, left := pos + count, left - count;
    }

    /** pb_readbyte. */
    method ReadByte() returns (ok: bool, b: byte)
      requires Valid()
      modifies this
      ensures Valid() && ok == (0 < old(left))
      ensures ok ==> Took(1) && b == old(Remaining())[0]
    {
      if left == 0 {
        return false, 0;
      }
      ok, b := true, source[pos];
      pos, left := pos + 1, left - 1;
    }

    /** pb_decode_varint32_eof. */
    method DecodeVarint32() returns (ok: bool, value: nat)
      requires Valid()
      modifies this
      ensures Valid() && ok == Varint32(old(Remaining())).Some?
      ensures ok ==> var d := Varint32(old(Remaining())).value; value == d.value && Took(d.used)
    {
      ghost var s := Remaining();
      var b: byte;
      ok, b := ReadByte();
      if !ok {
        return false, 0;
      }
      OneByte32(s, 0, 0);
      if b < 0x80 {
        value := b;
        return;
      }
      hide Varint32From;
      var result: nat, factor: nat, p: nat := b % 0x80, 0x80, 1;
      while b >= 0x80
        invariant Valid() && Took(p) && p >= 1 && factor == Range(p)
        invariant b >= 0x80 ==> Varint32From(s, p, result) == Varint32(s)
        invariant b < 0x80 ==>
          Varint32(s) == if p == 5 && b >= 0x10 then D.None else D.Some(Decoded(result, p))
        decreases left
      {
        OneByte32(s, p, result);
        ok, b := ReadByte();
        if !ok {
          return false, 0;
        }
        if p >= 5 {
          var signExtension := if p < 9 then 0xFF else 0x01;
          if b % 0x80 != 0 && (result < 0x8000_0000 || b != signExtension) {
            return false, 0;
          }
        } else {
          result := (result + Bits(b, factor)) % 0x1_0000_0000;
        }
        p, factor := p + 1, 128 * factor;
      }
      ok, value := !(p == 5 && b >= 0x10), result;
    }

    /** pb_decode_varint. */
    method DecodeVarint64() returns (ok: bool, value: nat)
      requires Valid()
      modifies this
      ensures Valid() && ok == Varint64(old(Remaining())).Some?
      ensures ok ==> var d := Varint64(old(Remaining())).value; value == d.value && Took(d.used)
    {
      hide Bits;
      ghost var s := Remaining();
      var b: byte;
      var factor: nat, p: nat := 1, 0;
      ghost var exact: nat := 0;
      value := 0;
      while true
        invariant Valid() && Took(p) && p <= 10 && value == exact % Span(8)
        invariant Continued(exact, factor, p, DecodeVarint(s[p..], 10 - p)) == DecodeVarint(s, 10)
        decreases left
      {
        if p >= 10 {
          return false, 0;
        }
        ok, b := ReadByte();
        if !ok {
          return;
        }
        var bits := Bits(b, factor);
        OneByte(s, p, 10, exact, factor);
        Truncated64(exact, bits);
        value, exact := (value + bits) % Span(8), exact + bits;
        p, factor := p + 1, 128 * factor;
        if b < 0x80 {
          return;
        }
      }
    }

    /** pb_skip_varint. */
    method SkipVarint() returns (ok: bool)
      requires Valid()
      modifies this
      ensures Valid() && ok == DecodeVarint(old(Remaining()), old(left)).Some?
      ensures ok ==> Took(DecodeVarint(old(Remaining()), old(left)).value.used)
    {
      ghost var s, p := Remaining(), 0;
      var b: byte := 0x80;
      while true
        invariant Valid() && Took(p)
        invariant Continued(0, 0, p, DecodeVarint(s[p..], left)).Some? == DecodeVarint(s, |s|).Some?
        invariant DecodeVarint(s, |s|).Some? ==> DecodeVarint(s, |s|).value.used == p + DecodeVarint(s[p..], left).value.used
        decreases left
      {
        ok, b := ReadByte();
        if !ok {
          return;
        }
        assert s[p..][1..] == s[p + 1..];
        p := p + 1;
        if b < 0x80 {
          return;
        }
      }
    }

    /** pb_skip_field. */
    method SkipField(wire: nat) returns (ok: bool)
      requires Valid()
      modifies this
      ensures Valid() && ok == Skip(wire, old(Remaining())).Some?
      ensures ok ==> Took(Skip(wire, old(Remaining())).value)
    {
      if wire == WireCode(WireVarint) {
        ok := SkipVarint();
      } else if wire == WireCode(Wire64) {
        var s;
        ok, s := Read(8);
      } else if wire == WireCode(WireString) {
        var n: nat, s;
        ok, n := DecodeVarint32();
        if ok {
          ok, s := Read(n);
        }
      } else if wire == WireCode(Wire32) {
        var s;
        ok, s := Read(4);
      } else {
        ok := false;
      }
    }

    /** pb_make_string_substream. */
    method OpenSubstream() returns (ok: bool, sub: InStream)
      requires Valid()
      modifies this
      ensures Valid() && fresh(sub) && sub.source == source && ok == Substring(old(Remaining())).Some?
      ensures ok ==> var d := Substring(old(Remaining())).value;
        && sub.Valid() && sub.Remaining() == Contents(old(Remaining()), d)
        && d.used <= old(left) && left == old(left) - d.used
        && sub.pos + sub.left == old(pos) + d.used == pos + sub.left
    {
      sub := new InStream(source, 0, 0);
      var size: nat;
      ok, size := DecodeVarint32();
      if !ok {
        return;
      }
      if left < size {
        return false, sub;
      }
      sub.pos, sub.left := pos, size;
      left := left - size;
      ghost var n := pos - old(pos);
      SliceOfSlice(source, old(pos), old(pos + left), n, n + size);
    }

    /** pb_close_string_substream: what the substream has left is skipped. */
    method CloseSubstream(sub: InStream)
      requires Valid() && sub != this && sub.Valid() && sub.source == source && sub.pos + sub.left + left <= |source|
      modifies this, sub
      ensures Valid() && pos == old(sub.pos + sub.left) && left == old(left)
    {
      if sub.left > 0 {
        var ok, s := sub.Read(sub.left);
      }
      pos := sub.pos;
    }

    /** What a method that decodes must do when its specification says `r`. */
    twostate predicate Gives(ok: bool, v: Value, r: Maybe<Read>)
      requires old(Valid())
      reads this
    {
      Valid() && ok == r.Some? && (ok ==> v == r.value.value && Took(r.value.used))
    }

    /** The decoders of numbers: pb_dec_bool and its fellows. */
    method DecodeNumeric(k: Kind) returns (ok: bool, v: Value)
      requires Valid() && KindWellFormed(k) && Packable(k)
      modifies this
      ensures Gives(ok, v, DecodeNumber(k, old(Remaining())))
    {
      v := Number(0);
      if k.Fixed32? {
        var s;
        ok, s := Read(4);
        if ok {
          v := Number(DecodeFixed32(s));
        }
      } else if k.Fixed64? {
        var s;
        ok, s := Read(8);
        if ok {
          v := Number(DecodeFixed64(s));
        }
      } else if k.Flag? {
        var n: nat;
        ok, n := DecodeVarint32();
        v := Number(if n != 0 then 1 else 0);
      } else {
        var n: nat;
        ok, n := DecodeVarint64();
        if ok {
          var r := Narrow(k, n);
          ok := r.Some?;
          if ok {
            v := Number(r.value);
          }
        }
      }
    }

    /** The decoder of one value. */
    method DecodeOne(k: Kind, base: Value) returns (ok: bool, v: Value)
      requires Valid() && KindWellFormed(k) && (k.Nested? ==> IsOf(k, base))
      modifies this
      ensures Gives(ok, v, DecodeValue(k, old(Remaining()), base))
      decreases k, 5
    {
      if Packable(k) {
        ok, v := DecodeNumeric(k);
        return;
      }
      if k.Nested? {
        ok, v := DecodeSubmessage(k, base);
      } else {
        ok, v := DecodeByteString(k);
      }
    }

    /** pb_dec_bytes, pb_dec_string and pb_dec_fixed_length_bytes. */
    method DecodeByteString(k: Kind) returns (ok: bool, v: Value)
      requires Valid() && KindWellFormed(k) && (k.Counted? || k.Text? || k.Raw?)
      modifies this
      ensures Gives(ok, v, DecodeBytes(k, old(Remaining())))
    {
      hide Varint32, BeforeNul;
      v := Data([]);
      var n: nat, contents;
      ok, n := DecodeVarint32();
      if !ok {
        return;
      }
      if k.Raw? && n == 0 {
        v := Data(Zeros(k.size));
        return;
      }
      if n > Room(k) || (k.Raw? && n != k.size) {
        return false, v;
      }
      ok, contents := Read(n);
      v := Data(if k.Text? then BeforeNul(contents) else contents);
    }

    /** pb_dec_submessage. */
    method DecodeSubmessage(k: Kind, base: Value) returns (ok: bool, v: Value)
      requires Valid() && k.Nested? && KindWellFormed(k) && IsOf(k, base)
      modifies this
      ensures Gives(ok, v, DecodeValue(k, old(Remaining()), base))
      decreases k, 4
    {
      hide DecodeFields;
      v := base;
      var sub;
      ok, sub := OpenSubstream();
      if !ok {
        return;
      }
      ok, v := sub.DecodeMessage(k.fields, base);
      if ok {
        CloseSubstream(sub);
      }
    }

    method DecodeFor(f: Field, base: Value) returns (ok: bool, v: Value)
      requires Valid() && FieldWellFormed(f) && (f.kind.Nested? ==> IsOf(f.kind, base))
      modifies this
      ensures Gives(ok, v, DecodeRecord(f, old(Remaining()), base))
      decreases f, 6
    {
      ok, v := DecodeOne(f.kind, base);
    }

    /** The packed branch of decode_static_field. */
    method DecodePackedItems(k: Kind, max: nat, items: seq<Value>) returns (ok: bool, all: seq<Value>)
      requires Valid() && KindWellFormed(k) && Packable(k) && forall j :: 0 <= j < |items| ==> IsOf(k, items[j])
      modifies this
      ensures Valid()
      ensures match Substring(old(Remaining()))
        case None => !ok
        case Some(d) =>
          match DecodePacked(k, max, Contents(old(Remaining()), d), items)
          case None => !ok
          case Some(r) => ok && all == r && Took(d.used)
    {
      all := items;
      var sub;
      ok, sub := OpenSubstream();
      if !ok {
        return;
      }
      ghost var s := sub.Remaining();
      ghost var end, p, l := sub.pos + sub.left, pos, left;
      while sub.left > 0 && |all| < max
        invariant pos == p && left == l && sub.Valid() && sub.pos + sub.left == end
        invariant forall j :: 0 <= j < |all| ==> IsOf(k, all[j])
        invariant ok && DecodePacked(k, max, sub.Remaining(), all) == DecodePacked(k, max, s, items)
        decreases sub.left
      {
        var v: Value;
        ok, v := sub.DecodeNumeric(k);
        if !ok {
          return;
        }
        all := all + [v];
      }
      if sub.left != 0 {
        return false, all;
      }
      CloseSubstream(sub);
    }

    /** The branch of decode_static_field for repeated fields. */
    method DecodeItem(fields: seq<Field>, i: nat, wire: nat, m: Value) returns (ok: bool, n: Value)
      requires Valid() && WellFormed(fields) && IsMessage(fields, m) && i < |fields| && fields[i].rule.Repeated?
      modifies this
      ensures Gives(ok, n, DecodeItems(fields, i, wire, old(Remaining()), m))
      decreases fields, 1
    {
      hide DecodeFields, DecodeRecord;
      var f, c := fields[i], m.cells[i];
      assert CellHolds(f, c) && FieldWellFormed(f);
      n := m;
      if wire == WireCode(WireString) && Packable(f.kind) {
        var all;
        ok, all := DecodePackedItems(f.kind, f.rule.max, c.items);
        if ok {
          n := WithCell(m, i, Many(all));
        }
      } else if |c.items| >= f.rule.max {
        ok := false;
      } else {
        var v;
        FieldDefaultHolds(f);
        ok, v := DecodeFor(f, Default(f.kind, f.initial));
        if ok {
          n := WithCell(m, i, Many(c.items + [v]));
        }
      }
    }

    /** decode_static_field. */
    method DecodeInto(fields: seq<Field>, i: nat, wire: nat, m: Value) returns (ok: bool, n: Value)
      requires Valid() && WellFormed(fields) && IsMessage(fields, m) && i < |fields|
      modifies this
      ensures Gives(ok, n, DecodeField(fields, i, wire, old(Remaining()), m))
      decreases fields, 2, 0
    {
      hide DecodeFields;
      var f, c := fields[i], m.cells[i];
      assert CellHolds(f, c) && FieldWellFormed(f);
      n := m;
      var v: Value;
      match f.rule
      case Repeated(_) =>
        ok, n := DecodeItem(fields, i, wire, m);
      case Optional =>
        ok, v := DecodeFor(f, c.value);
        n := WithCell(m, i, Maybe(true, v));
      case OneOf(group) =>
        var base := c.value;
        if f.kind.Nested? && m.which[group] != f.tag {
          FieldDefaultHolds(f);
          base := Default(f.kind, f.initial);
        }
        if !f.kind.Nested? {
          BaseIsUnused(f, Remaining(), base, Default(f.kind, f.initial));
        }
        ok, v := DecodeFor(f, base);
        n := Choose(WithCell(m, i, One(v)), group, f.tag);
      case _ =>
        ok, v := DecodeFor(f, c.value);
        n := WithCell(m, i, One(v));
    }

    /** pb_decode_noinit. */
    method DecodeMessage(fields: seq<Field>, m: Value) returns (ok: bool, n: Value)
      requires Valid() && WellFormed(fields) && IsMessage(fields, m)
      modifies this
      ensures Gives(ok, n, DecodeFields(fields, old(Remaining()), m, {}))
      decreases fields, 4
    {
      hide DecodeFields, DecodeField;
      ok, n := true, m;
      ghost var s, used: nat := Remaining(), 0;
      var seen: set<nat>, more := {}, true;
      var iter := new FieldIterator(fields);
      while ok && more && left > 0
        invariant Valid() && iter.Valid() && iter.fields == fields && fresh(iter) && IsMessage(fields, n)
        invariant ok ==> Took(used)
        invariant !ok ==> DecodeFields(fields, s, m, {}).None?
        invariant ok && more ==> DecodeFields(fields, s, m, {}) == After(used, DecodeFields(fields, Remaining(), n, seen))
        invariant ok && !more ==>
          DecodeFields(fields, s, m, {}) == if AllSeen(fields, seen) then D.Some(WireReader.Read(n, used)) else D.None
        decreases ok && more, left
      {
        ghost var step;
        ok, more, n, seen, step := DecodeNext(iter, n, seen);
        used := if ok then used + step else used;
      }
      if ok {
        NoField(fields, [], n, seen);
        ok := SeenAll(iter, seen);
      }
    }

    /** pb_decode. */
    method DecodeStruct(fields: seq<Field>) returns (ok: bool, m: Value)
      requires Valid() && WellFormed(fields)
      modifies this
      ensures Gives(ok, m, Decode(fields, old(Remaining())))
    {
      DefaultsHold(fields);
      ok, m := DecodeMessage(fields, Defaults(fields));
    }

    /** A record for the field that `iter` found. */
    method DecodeFound(iter: FieldIterator, wire: nat, m: Value, seen: set<nat>)
      returns (ok: bool, n: Value, marks: set<nat>)
      requires Valid() && iter.Valid() && WellFormed(iter.fields) && IsMessage(iter.fields, m) && |iter.fields| > 0
      modifies this
      ensures IsMessage(iter.fields, n) && (ok ==> marks == Seen(iter.fields, iter.pos, seen))
      ensures Gives(ok, n, DecodeField(iter.fields, iter.pos, wire, old(Remaining()), m))
      decreases iter.fields, 2, 1
    {
      hide DecodeFields, DecodeField;
      marks := seen;
      if iter.fields[iter.pos].rule.Required? && iter.requiredIndex < MAX_REQUIRED_FIELDS {
        marks := marks + {iter.requiredIndex};
      }
      ok, n := DecodeInto(iter.fields, iter.pos, wire, m);
      n := if ok then n else m;
    }

    /** One round of the loop of pb_decode_noinit; `more` is false at a tag of 0, which ends the message. */
    method DecodeNext(iter: FieldIterator, m: Value, seen: set<nat>)
      returns (ok: bool, more: bool, n: Value, marks: set<nat>, ghost used: nat)
      requires Valid() && left > 0 && iter.Valid() && WellFormed(iter.fields) && IsMessage(iter.fields, m)
      modifies this, iter
      ensures Valid() && iter.Valid() && IsMessage(iter.fields, n)
      ensures var r := DecodeFields(iter.fields, old(Remaining()), m, seen);
        && (!ok ==> r.None?)
        && (ok ==> used > 0 && Took(used))
        && (ok && more ==> r == After(used, DecodeFields(iter.fields, Remaining(), n, marks)))
        && (ok && !more ==> r == if AllSeen(iter.fields, marks) then D.Some(WireReader.Read(n, used)) else D.None)
      decreases iter.fields, 3
    {
      hide DecodeFields, DecodeField, Varint32;
      n, marks, more, used := m, seen, true, 0;
      ghost var s, d := Remaining(), Varint32(Remaining());
      var fields, key: nat := iter.fields, 0;
      ok, key := DecodeVarint32();
      if !ok || key == 0 {
        NoField(fields, s, m, seen);
        if ok {
          more, used := false, |s| - left;
        }
        return;
      }
      var found := iter.Find(key / 8);
      if !found {
        UnknownField(fields, s, m, seen, d.value);
        ok := SkipField(key % 8);
      } else {
        var i := iter.pos;
        ghost var r := DecodeField(fields, i, key % 8, Remaining(), m);
        ok, n, marks := DecodeFound(iter, key % 8, m, seen);
        used := if ok then |s| - left else 0;
        KnownField(fields, s, m, seen, d.value, i, r, used, if ok then Remaining() else []);
        return;
      }
      used := if ok then |s| - left else 0;
    }
  }

  /** The final part of pb_decode_noinit: the walk goes on to the last field, and the marks of the
      required fields are compared with their number. */
  method SeenAll(iter: FieldIterator, seen: set<nat>) returns (all: bool)
    requires iter.Valid()
    modifies iter
    ensures iter.Valid() && all == AllSeen(iter.fields, seen)
  {
    var count := 0;
    var more := |iter.fields| > 0;
    ghost var i := iter.pos;
    while more
      invariant iter.Valid() && i <= |iter.fields| && (more ==> i == iter.pos)
      invariant more == (i < |iter.fields|) && (!more ==> count == RequiredBefore(iter.fields, |iter.fields|))
      decreases |iter.fields| - i
    {
      count := iter.requiredIndex + if iter.fields[iter.pos].rule.Required? then 1 else 0;
      more := iter.Next();
      i := i + 1;
    }
    if count > MAX_REQUIRED_FIELDS {
      count := MAX_REQUIRED_FIELDS;
    }
    all := forall r :: 0 <= r < count ==> r in seen;
  }

  /** The casts of pb_dec_varint, pb_dec_uvarint and pb_dec_svarint: the value is cut to the size
      of the field and refused if that changed it. */
  method Narrow(k: Kind, value: nat) returns (r: Maybe<int>)
    requires (k.Unsigned? || k.Signed? || k.ZigZag?) && KindWellFormed(k) && value < Span(8)
    ensures r == FromVarint(k, value)
  {
    if k.Unsigned? {
      var clamped := value % Span(k.size);
      return if clamped != value then D.None else D.Some(clamped);
    }
    var svalue: int;
    if k.ZigZag? {
      svalue := if value % 2 == 1 then AsSigned(Span(8) - 1 - value / 2, 8) else AsSigned(value / 2, 8);
      assert svalue == if value % 2 == 1 then -(value / 2) - 1 else value / 2;
    } else {
      svalue := if k.size == 8 then AsSigned(value, 8) else AsSigned(value, 4);
    }
    var clamped := AsSigned(svalue % Span(k.size), k.size);
    SameAfterCut(svalue, k.size);
    return if clamped != svalue then D.None else D.Some(clamped);
  }

  /** Cutting a number to `size` bytes changes it unless it fits. */
  lemma SameAfterCut(n: int, size: nat)
    requires IntegerSize(size)
    ensures AsSigned(n % Span(size), size) == n <==> InSigned(n, size)
  {
  }

  lemma BaseIsUnused(f: Field, s: seq<byte>, a: Value, b: Value)
    requires FieldWellFormed(f) && !f.kind.Nested?
    ensures DecodeRecord(f, s, a) == DecodeRecord(f, s, b)
  {
  }

  lemma SliceOfSlice<T>(s: seq<T>, a: nat, b: nat, i: nat, j: nat)
    requires a <= b <= |s| && i <= j <= b - a
    ensures s[a..b][i..j] == s[a + i..a + j]
  {
    var t := s[a..b];
    forall k | 0 <= k < j - i
      ensures t[i..j][k] == s[a + i..a + j][k]
    {
      assert t[i + k] == s[a + (i + k)];
    }
  }

  lemma OneByte32(s: seq<byte>, p: nat, result: nat)
    ensures Range(p + 1) == 128 * Range(p)
    ensures p == 0 < |s| && result == 0 ==> Bits(s[0], Range(0)) == s[0] % 0x80
    ensures Varint32From(s, p, result)
         == if p >= |s| || (p >= 5 && s[p] % 0x80 != 0 && (result < 0x8000_0000 || s[p] != if p < 9 then 0xFF else 0x01)) then D.None
            else
              var sum := if p >= 5 then result else (result + Bits(s[p], Range(p))) % 0x1_0000_0000;
              if s[p] >= 0x80 then Varint32From(s, p + 1, sum)
              else if p == 4 && s[p] >= 0x10 then D.None
              else D.Some(Decoded(sum, p + 1))
  {
  }

  lemma Truncated64(exact: nat, more: nat)
    ensures (exact % Span(8) + more) % Span(8) == (exact + more) % Span(8)
  {
  }
}
