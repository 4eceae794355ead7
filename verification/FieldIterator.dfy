/** pb_field_iter_t: the wrap-around walk over the fields of a message (pb_common.c). */
module FieldIterators {
  import opened Messages

  function RequiredBefore(fields: seq<Field>, i: nat): (r: nat)
    requires i <= |fields|
    ensures r <= i
  {
    if i == 0 then 0
    else RequiredBefore(fields, i - 1) + if fields[i - 1].rule.Required? then 1 else 0
  }

  lemma {:induction false} RequiredBeforeGrows(fields: seq<Field>, i: nat, j: nat)
    requires i <= j <= |fields|
    ensures RequiredBefore(fields, i) <= RequiredBefore(fields, j)
    ensures i < j && fields[i].rule.Required? ==> RequiredBefore(fields, i) < RequiredBefore(fields, j)
  {
    if i < j {
      RequiredBeforeGrows(fields, i, j - 1);
    }
  }

  predicate HasTag(fields: seq<Field>, i: nat, tag: nat) {
    i < |fields| && fields[i].tag == tag
  }

  /** The field with number `tag`, or `|fields|`. */
  function IndexOf(fields: seq<Field>, tag: nat, from: nat := 0): (r: nat)
    requires from <= |fields|
    ensures from <= r <= |fields|
    ensures r < |fields| ==> HasTag(fields, r, tag)
    ensures forall j :: from <= j < r ==> !HasTag(fields, j, tag)
    decreases |fields| - from
  {
    if from == |fields| || HasTag(fields, from, tag) then from else IndexOf(fields, tag, from + 1)
  }

  class FieldIterator {
    const fields: seq<Field>
    var pos: nat
    var requiredIndex: nat

    ghost predicate Valid()
      reads this
    {
      pos <= |fields| && (pos == |fields| ==> pos == 0) && requiredIndex == RequiredBefore(fields, pos)
    }

    constructor (fields: seq<Field>)
      ensures Valid() && this.fields == fields && pos == 0
    {
      this.fields := fields;
      pos, requiredIndex := 0, 0;
    }

    /** pb_field_iter_next: false when the walk is back at the first field. */
    method Next() returns (more: bool)
      requires Valid()
      modifies this
      ensures Valid() && more == (old(pos) + 1 < |fields|)
      ensures pos == if more then old(pos) + 1 else 0
    {
      if |fields| == 0 {
        return false;
      }
      if pos + 1 == |fields| {
        pos, requiredIndex := 0, 0;
        return false;
      }
      if fields[pos].rule.Required? {
        requiredIndex := requiredIndex + 1;
      }
      pos := pos + 1;
      return true;
    }

    /** pb_field_iter_find: from wherever the walk stands, the field with number `tag`. */
    method Find(tag: nat) returns (found: bool)
      requires Valid()
      requires forall i, j :: 0 <= i < j < |fields| ==> fields[i].tag != fields[j].tag
      modifies this
      ensures Valid() && found == (IndexOf(fields, tag) < |fields|)
      ensures pos == if found then IndexOf(fields, tag) else old(pos)
    {
      var start := pos;
      ghost var wrapped := false;
      ghost var i := IndexOf(fields, tag);
      while true
        invariant Valid()
        invariant wrapped ==> pos < start
        invariant wrapped && i < |fields| ==> pos <= i < start
        invariant !wrapped && i < |fields| ==> start <= pos && !(start <= i < pos)
        invariant !wrapped ==> start <= pos
        decreases !wrapped, |fields| - pos
      {
        if pos < |fields| && fields[pos].tag == tag {
          assert HasTag(fields, pos, tag) && i < |fields|;
          return true;
        }
        var more := Next();
        if !more {
          wrapped := true;
        }
        if pos == start {
          return false;
        }
      }
    }
  }
}
