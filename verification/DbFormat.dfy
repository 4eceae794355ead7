/** Internal keys and entries (db/dbformat.h, db/dbformat.cc).

    A user comparator is a total order on byte strings. There are countably many byte
    strings, and every countable total order embeds in the reals, so a user key is
    modelled by its rank, a `real`. The code of this part of the store only ever compares
    user keys; the parts that look at bytes have their own models. */
module DbFormat {

  type UserKey = real
  type Value = string
  type SequenceNumber = nat

  const NUM_LEVELS := 7
  const MAX_MEM_COMPACT_LEVEL := 2
  const MAX_SEQUENCE_NUMBER: nat := 0x100_0000_0000_0000 - 1

  datatype Option<+T> = None | Some(value: T)

  datatype ValueType = TypeDeletion | TypeValue

  datatype InternalKey = InternalKey(user: UserKey, sequence: SequenceNumber, kind: ValueType)

  datatype Entry = Entry(key: InternalKey, value: Value)

  /** The eight trailing bytes of an internal key, read as a number. */
  function Tag(k: InternalKey): nat {
    k.sequence * 256 + if k.kind.TypeValue? then 1 else 0
  }

  /** InternalKeyComparator::Compare(a, b) < 0. */
  predicate Less(a: InternalKey, b: InternalKey) {
    a.user < b.user || (a.user == b.user && Tag(a) > Tag(b))
  }

  /** The first internal key that a reader at sequence number `sequence` may see for `user`. */
  function LookupKey(user: UserKey, sequence: SequenceNumber): InternalKey {
    InternalKey(user, sequence, TypeValue)
  }

  /** `a` sorts before `b`, and no two entries of a user key share a sequence number. */
  predicate Before(a: InternalKey, b: InternalKey) {
    a.user < b.user || (a.user == b.user && a.sequence > b.sequence)
  }

  predicate Sorted(es: seq<Entry>) {
    forall i, j :: 0 <= i < j < |es| ==> Before(es[i].key, es[j].key)
  }

  function Flatten(outputs: seq<seq<Entry>>): seq<Entry> {
    if outputs == [] then [] else Flatten(outputs[..|outputs| - 1]) + outputs[|outputs| - 1]
  }

  lemma FlattenAppend(outputs: seq<seq<Entry>>, o: seq<Entry>)
    ensures Flatten(outputs + [o]) == Flatten(outputs) + o
  {
    assert (outputs + [o])[..|outputs|] == outputs;
  }

  lemma IndexedIsMember<T>(s: seq<T>, i: int)
    ensures 0 <= i < |s| ==> s[i] in s
  {
  }

  // ---- What a reader must see

  /** `e` is the newest entry of `user` in `s` that a reader at `snap` may see. */
  ghost predicate Newest(s: set<Entry>, user: UserKey, snap: SequenceNumber, e: Entry) {
    && e in s && e.key.user == user && e.key.sequence <= snap
    && forall x :: x in s && x.key.user == user && x.key.sequence <= snap ==> x.key.sequence <= e.key.sequence
  }

  /** No entry of `user` in `s` is visible at `snap`. */
  ghost predicate Nothing(s: set<Entry>, user: UserKey, snap: SequenceNumber) {
    forall x :: x in s && x.key.user == user ==> x.key.sequence > snap
  }

  /** A user key's entries have distinct sequence numbers. */
  ghost predicate UniqueSequence(s: set<Entry>) {
    forall x, y :: x in s && y in s && x.key.user == y.key.user && x.key.sequence == y.key.sequence ==> x == y
  }

  function Meaning(e: Entry): Option<Value> {
    if e.key.kind.TypeValue? then Some(e.value) else None
  }

  /** The simple specification of a read: the entry with the largest sequence number not
      above the snapshot decides, and a deletion reads as absence. */
  ghost function Read(s: set<Entry>, user: UserKey, snap: SequenceNumber): Option<Value> {
    if exists e :: Newest(s, user, snap, e) then var e :| Newest(s, user, snap, e); Meaning(e) else None
  }
}
