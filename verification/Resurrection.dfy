/** When a compaction resurrects a deleted user key: a concrete version on which it does, and
    a test on the inputs that rules it out (db/version_set.cc). */
module Resurrection {
  import opened DbFormat
  import opened Versions
  import opened Ranges
  import opened Inputs
  import opened Setup
  import opened Compact
  import opened Preserve

  /** No file that stays at the output level starts with the user key on which an input of
      that level ends: what a call of AddBoundaryInputs on inputs1 would establish. */
  ghost predicate CleanlyCut(v: Version, c: Compaction) {
    c.level + 1 < |v| &&
    forall f, g :: f in c.inputs1 && g in v[c.level + 1] && g !in c.inputs1 && Less(f.largest, g.smallest)
      ==> f.largest.user != g.smallest.user
  }

  lemma CleanCutPreventsResurrection(v: Version, c: Compaction, smallest: SequenceNumber, user: UserKey)
    requires VersionOK(v) && InputsClosed(v, c) && CleanlyCut(v, c)
    ensures !Resurrects(v, c, smallest, user)
  {
    if Resurrects(v, c, smallest, user) {
      var e, g :|
        && e in InputEntries(c) && e.key.user == user
        && Obsolete(v, c.level, smallest, e) && !Hidden(InputEntries(c), smallest, e)
        && g in Staying(v, c, c.level + 1)
        && Exposes(v, c, smallest, e, g);
      var f := ExposingFileFollows(v, c, e, g);
    }
  }

  /** The file that exposes an old value starts with the user key on which an input ends. */
  lemma ExposingFileFollows(v: Version, c: Compaction, e: Entry, g: File) returns (f: File)
    requires VersionOK(v) && InputsClosed(v, c) && e in InputEntries(c) && g in Staying(v, c, c.level + 1)
    requires g.smallest.user == e.key.user && g.smallest.sequence < e.key.sequence
    ensures g in v[c.level + 1] && g !in c.inputs1
    ensures f in c.inputs1 && Less(f.largest, g.smallest) && f.largest.user == g.smallest.user
  {
    WithoutMembers(v[c.level + 1], c.inputs1);
    f :| f in c.Inputs() && e in f.entries;
    assert WellFormed(f) && WellFormed(g) && OnOneSide(g, c.Inputs());
    RangeIsProper(g);
    EntryWithinFile(f, e);
    assert Before(f.largest, g.smallest) || Before(g.largest, f.smallest);
    assert f in c.inputs0 ==> Apart(f, g);
  }

  // ---- A version on which SetupOtherInputs chooses inputs that resurrect a key

  function Val(user: UserKey, sequence: SequenceNumber): Entry {
    Entry(InternalKey(user, sequence, TypeValue), "v")
  }

  function Del(user: UserKey, sequence: SequenceNumber): Entry {
    Entry(InternalKey(user, sequence, TypeDeletion), "")
  }

  function MakeFile(number: nat, entries: seq<Entry>): (f: File)
    requires entries != [] && Sorted(entries)
    ensures WellFormed(f)
  {
    File(number, 1, entries[0].key, entries[|entries| - 1].key, entries)
  }

  /** User key 2.0 was deleted at 10, and its older value has stayed in a file of its own. */
  const TOP := MakeFile(9, [Val(1.0, 20)])
  const LEFT := MakeFile(6, [Val(1.0, 3), Del(2.0, 10)])
  const RIGHT := MakeFile(7, [Val(2.0, 5)])
  const LEVELS: Version := [[], [], [TOP], [LEFT, RIGHT], [], [], []]
  const CHOICE := Compaction(2, [TOP], [LEFT], [])

  lemma ExampleVersionOK()
    ensures VersionOK(LEVELS)
  {
    assert WellFormed(TOP) && WellFormed(LEFT) && WellFormed(RIGHT);
    forall l, m, f, g | 0 <= l < m < |LEVELS| && f in LEVELS[l] && g in LEVELS[m]
      ensures NewerThan(f, g)
    {
      assert l == 2 && m == 3 && f == TOP && (g == LEFT || g == RIGHT);
      assert NewerThan(TOP, LEFT) && NewerThan(TOP, RIGHT);
    }
  }

  /** The choice is the one that SetupOtherInputs makes from file TOP. */
  lemma ExampleIsChosen()
    ensures Chosen(LEVELS[2], LEVELS[3], CHOICE) && BoundaryChain(LEVELS[2], [TOP], CHOICE.inputs0)
  {
    assert LEVELS[2][0..1] == [TOP] && CleanCut(LEVELS[2], 1);
    assert LEVELS[3][..1] == [LEFT] && [LEFT][..0] == [];
    var b, e := Some(1.0), Some(1.0);
    assert Meeting([LEFT], b, e) == Meeting([], b, e) + [LEFT];
    assert Meeting(LEVELS[3], b, e) == Meeting([LEFT], b, e);
    assert SmallestKey([TOP]) == TOP.smallest && LargestKey([TOP]) == TOP.largest;
  }

  lemma ExampleMarker(x: Entry)
    requires x in InputEntries(CHOICE) && x.key.user == 2.0
    ensures x == Del(2.0, 10)
  {
    var f :| f in CHOICE.Inputs() && x in f.entries;
    assert f == TOP || f == LEFT;
  }

  lemma ExampleRest(x: Entry)
    requires x in VersionEntries(Rest(LEVELS, CHOICE)) && x.key.user == 2.0
    ensures x.key.sequence <= 5
  {
    WithoutMembers(LEVELS[2], [TOP]);
    WithoutMembers(LEVELS[3], [LEFT]);
    StoredSomewhere(Rest(LEVELS, CHOICE), x);
    var l :| 0 <= l < |LEVELS| && StoredAt(Rest(LEVELS, CHOICE), l, x);
    var f :| f in Staying(LEVELS, CHOICE, l) && x in f.entries;
    assert l == 3 && f == RIGHT;
  }

  lemma ExampleObsolete(smallest: SequenceNumber)
    requires smallest >= 10
    ensures var e := Del(2.0, 10);
            && e in InputEntries(CHOICE) && Obsolete(LEVELS, 2, smallest, e) && !Hidden(InputEntries(CHOICE), smallest, e)
  {
    var e := Del(2.0, 10);
    assert CHOICE.Inputs()[1] == LEFT && LEFT.entries[1] == e && e in LEFT.entries;
    assert e in FileEntries(CHOICE.Inputs());
    if Hidden(InputEntries(CHOICE), smallest, e) {
      var x :| x in InputEntries(CHOICE) && x.key.user == 2.0 && 10 < x.key.sequence <= smallest;
      ExampleMarker(x);
    }
  }

  /** The example resurrects user key 2.0 for every oldest snapshot at or above 10. */
  lemma ExampleResurrects(smallest: SequenceNumber)
    requires smallest >= 10
    ensures VersionOK(LEVELS) && InputsClosed(LEVELS, CHOICE)
    ensures Resurrects(LEVELS, CHOICE, smallest, 2.0)
  {
    ExampleVersionOK();
    ExampleIsChosen();
    ChosenIsClosed(LEVELS, CHOICE);
    ExampleObsolete(smallest);
    WithoutMembers(LEVELS[3], [LEFT]);
    assert RIGHT in Staying(LEVELS, CHOICE, 3);
    forall x | x in VersionEntries(Rest(LEVELS, CHOICE)) && x.key.user == 2.0
      ensures x.key.sequence <= 5
    {
      ExampleRest(x);
    }
    assert Exposes(LEVELS, CHOICE, smallest, Del(2.0, 10), RIGHT);
  }
}
