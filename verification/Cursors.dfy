/** The bidirectional cursor that every internal iterator provides, over a sorted run. */
module Cursors {
  import opened DbFormat
  import opened Lookup

  /** A position in a sorted run; the length of the run stands for "not valid", as in
      Version::LevelFileNumIterator. */
  class Cursor {
    const es: seq<Entry>
    var pos: nat

    ghost predicate Inv()
      reads this
    {
      Sorted(es) && pos <= |es|
    }

    predicate Valid()
      reads this
    {
      pos < |es|
    }

    constructor (es: seq<Entry>)
      requires Sorted(es)
      ensures Inv() && this.es == es && !Valid()
    {
      this.es := es;
      pos := |es|;
    }

    function Key(): InternalKey
      requires Valid()
      reads this
    {
      es[pos].key
    }

    method SeekToFirst()
      requires Inv()
      modifies this
      ensures Inv() && pos == 0
    {
      pos := 0;
    }

    method SeekToLast()
      requires Inv()
      modifies this
      ensures Inv() && pos == if es == [] then 0 else |es| - 1
    {
      pos := if es == [] then 0 else |es| - 1;
    }

    method Seek(target: InternalKey)
      requires Inv()
      modifies this
      ensures Inv() && pos == SeekIndex(es, target)
    {
      pos := SeekIndex(es, target);
    }

    method Next()
      requires Inv() && Valid()
      modifies this
      ensures Inv() && pos == old(pos) + 1
    {
      pos := pos + 1;
    }

    method Prev()
      requires Inv() && Valid()
      modifies this
      ensures Inv() && pos == if old(pos) == 0 then |es| else old(pos) - 1
    {
      pos := if pos == 0 then |es| else pos - 1;
    }
  }
}
