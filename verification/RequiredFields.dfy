/** What the decoder does about required fields (pb_decode.c, fields_seen). */
module RequiredFields {
  import opened Bytes
  import opened Coding
  import D = DbFormat
  import opened Messages
  import opened WireFormat
  import opened WireReader
  import opened FieldIterators
  import opened RoundTrip

  /** The tag of field number `tag` can be read at `p`. */
  predicate TagAt(s: seq<byte>, tag: nat, p: nat)
    requires p <= |s|
  {
    Varint32(s[p..]).Some? && Varint32(s[p..]).value.value / 8 == tag
  }

  ghost predicate HasTagIn(s: seq<byte>, tag: nat) {
    exists p: nat :: p <= |s| && TagAt(s, tag, p)
  }

  lemma TagBehind(s: seq<byte>, tag: nat, n: nat)
    requires n <= |s| && HasTagIn(s[n..], tag)
    ensures HasTagIn(s, tag)
  {
    var p: nat :| p <= |s[n..]| && TagAt(s[n..], tag, p);
    assert s[n..][p..] == s[n + p..];
    assert TagAt(s, tag, n + p);
  }

  lemma OneMark(fields: seq<Field>, i: nat, j: nat, seen: set<nat>)
    requires i < |fields| && j < |fields| && i != j && fields[i].rule.Required? && RequiredBefore(fields, i) !in seen
    ensures RequiredBefore(fields, i) !in Seen(fields, j, seen)
  {
    if fields[j].rule.Required? {
      if i < j {
        RequiredBeforeGrows(fields, i, j);
      } else {
        RequiredBeforeGrows(fields, j, i);
      }
    }
  }

  /** An accepted message has the tag of each required field that is not marked yet. */
  lemma {:induction false} UnmarkedIsThere(fields: seq<Field>, s: seq<byte>, m: Value, seen: set<nat>, i: nat)
    requires WellFormed(fields) && IsMessage(fields, m) && i < |fields| && fields[i].rule.Required?
    requires RequiredBefore(fields, i) < 64 && RequiredBefore(fields, i) !in seen
    requires DecodeFields(fields, s, m, seen).Some?
    ensures HasTagIn(s, fields[i].tag)
    decreases |s|
  {
    hide DecodeField, Skip, Varint32From, WellFormed;
    RequiredBeforeGrows(fields, i, |fields|);
    var d := Varint32(s).value;
    assert s != [] && Varint32(s).Some? && d.value != 0 by {
      assert !AllSeen(fields, seen);
    }
    var rest, j := s[d.used..], IndexOf(fields, d.value / 8);
    if j == |fields| {
      var n := Skip(d.value % 8, rest).value;
      UnmarkedIsThere(fields, rest[n..], m, seen, i);
      TagBehind(rest, fields[i].tag, n);
      TagBehind(s, fields[i].tag, d.used);
    } else if j == i {
      assert s[0..] == s && TagAt(s, fields[i].tag, 0);
    } else {
      var read := DecodeField(fields, j, d.value % 8, rest, m).value;
      OneMark(fields, i, j, seen);
      UnmarkedIsThere(fields, rest[read.used..], read.value, Seen(fields, j, seen), i);
      TagBehind(rest, fields[i].tag, read.used);
      TagBehind(s, fields[i].tag, d.used);
    }
  }

  /** An accepted message has the tags of the first 64 required fields. */
  lemma RequiredIsThere(fields: seq<Field>, s: seq<byte>, i: nat)
    requires WellFormed(fields) && i < |fields| && fields[i].rule.Required? && RequiredBefore(fields, i) < 64
    requires Decode(fields, s).Some?
    ensures HasTagIn(s, fields[i].tag)
  {
    DefaultsHold(fields);
    UnmarkedIsThere(fields, s, Defaults(fields), {}, i);
  }

  /** No bytes at all are a message exactly when no field is required; then every field has its default. */
  lemma EmptyInput(fields: seq<Field>)
    requires WellFormed(fields)
    ensures Decode(fields, []) == if exists i :: 0 <= i < |fields| && fields[i].rule.Required? then D.None
                                  else D.Some(Read(Defaults(fields), 0))
  {
    DefaultsHold(fields);
    if i :| 0 <= i < |fields| && fields[i].rule.Required? {
      RequiredBeforeGrows(fields, i, |fields|);
      var none: set<nat> := {};
      assert 0 !in none;
      assert !AllSeen(fields, none);
    } else {
      NoneRequired(fields, |fields|);
    }
  }

  lemma {:induction false} NoneRequired(fields: seq<Field>, n: nat)
    requires n <= |fields| && forall i :: 0 <= i < n ==> !fields[i].rule.Required?
    ensures RequiredBefore(fields, n) == 0
  {
    if n > 0 {
      NoneRequired(fields, n - 1);
    }
  }
}
