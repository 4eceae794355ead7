/** A manual compaction whose inputs leave a gap, and a memtable's table that is flushed into the gap
    while the compaction works (db/version_set.cc, db/db_impl.cc). */
module GapExample {
  import opened DbFormat
  import opened Versions
  import opened Ranges
  import opened Inputs
  import opened Setup
  import opened Compact
  import opened Preserve
  import opened Flush
  import opened Resurrection

  const A := MakeFile(2, [Val(1.0, 2)])
  const B := MakeFile(3, [Val(3.0, 3)])
  const DEEP := MakeFile(1, [Val(2.0, 1)])
  const TABLE := MakeFile(7, [Val(2.0, 9)])
  const OUTPUT := MakeFile(8, [Val(1.0, 2), Val(3.0, 3)])
  const GAPS: Version := [[A, B], [], [DEEP], [], [], [], []]
  const FLUSHED: Version := [[A, B], [TABLE], [DEEP], [], [], [], []]
  const BROKEN: Version := [[], [OUTPUT, TABLE], [DEEP], [], [], [], []]

  /** The compaction of all of level 0. */
  function WithGap(grandparents: seq<File>): Compaction {
    Compaction(0, [A, B], [], grandparents)
  }

  lemma GapsOK()
    ensures VersionOK(GAPS) && SequencesInRange(GAPS)
  {
    assert WellFormed(A) && WellFormed(B) && WellFormed(DEEP);
  }

  /** CompactRange over everything chooses these inputs. */
  method GapIsPicked(options: Options) returns (c: Option<Compaction>)
    ensures c.Some? && c.value == WithGap(c.value.grandparents)
  {
    GapsOK();
    hide VersionOK, InputsClosed;
    c := CompactRange(GAPS, 0, None, None, options);
    assert A in GAPS[0] && Meets(A, None, None) && B in GAPS[0] && Meets(B, None, None);
    OnlyChoice(c.value);
  }

  /** PickLevelForMemTableOutput places the table in level 1, as level 2 has a file in its range. */
  method TableIsPlaced(options: Options) returns (level: nat)
    requires options.maxFileSize > 0
    ensures level == 1
  {
    GapsOK();
    hide VersionOK;
    level := PickLevelForMemTableOutput(GAPS, 2.0, 2.0, options);
    StopsAtOne(options);
  }

  lemma StopsAtOne(options: Options)
    requires options.maxFileSize > 0
    ensures !Stops(GAPS, 0, 2.0, 2.0, options) && Stops(GAPS, 1, 2.0, 2.0, options)
  {
    var range := Some(2.0);
    assert DEEP in GAPS[2] && Meets(DEEP, range, range);
    assert GAPS[2][..0] == [] && Meeting([], range, range) == [];
    assert Meeting(GAPS[2], range, range) == [DEEP] && [DEEP][..0] == [] && TotalFileSize([DEEP]) == 1;
  }

  lemma OnlyChoice(c: Compaction)
    requires c.level == 0 && Chosen(GAPS[0], GAPS[1], c) && A in c.inputs0 && B in c.inputs0
    ensures c == WithGap(c.grandparents)
  {
    var b, e :| ClosedRange(GAPS[0], b, e) && c.inputs0 == Meeting(GAPS[0], b, e);
    MeetingMembers(GAPS[0], b, e);
    assert GAPS[0][..1] == [A] && [A][..0] == [] && Meeting([], b, e) == [];
    assert Meeting([A], b, e) == [A];
  }

  lemma GapIsClosed(c: Compaction)
    requires c == WithGap(c.grandparents)
    ensures InputsClosed(GAPS, c) && !Covered(c.Inputs())
  {
    assert c.Inputs() == [A, B] && A in [A, B] && B in [A, B];
    assert Spans(A, B, 2.0) && forall h :: h in [A, B] ==> !Holds(h, 2.0);
  }

  lemma TableIsFresh()
    ensures FreshTable(GAPS, 1, TABLE)
  {
    forall l, g | 0 <= l < |GAPS| && g in GAPS[l]
      ensures NewerThan(TABLE, g) && g.number < TABLE.number && (l <= 1 ==> !Meets(g, Some(2.0), Some(2.0)))
    {
      FilesOfGaps(l, g);
    }
  }

  lemma FilesOfGaps(l: nat, g: File)
    requires l < |GAPS| && g in GAPS[l]
    ensures if l == 0 then g == A || g == B else l == 2 && g == DEEP
  {
  }

  lemma TableFits()
    ensures FreshTable(GAPS, 1, TABLE) && Added(GAPS, 1, TABLE, FLUSHED) && VersionOK(FLUSHED)
  {
    hide VersionOK, FreshTable;
    GapsOK();
    TableIsFresh();
    AddedVersionOK(GAPS, 1, TABLE, FLUSHED);
  }

  /** The loop keeps both entries, and may write them to one table. */
  lemma OneOutput(c: Compaction, smallest: SequenceNumber)
    requires c == WithGap(c.grandparents)
    ensures Outputs(FLUSHED, c, smallest, [OUTPUT]) && Installed(FLUSHED, c, [OUTPUT], BROKEN)
  {
    var inputs := InputEntries(c);
    assert c.Inputs() == [A, B];
    EntriesOfTwo(A, B);
    EntriesOfOne(OUTPUT);
    assert inputs == {Val(1.0, 2), Val(3.0, 3)};
    forall e | e in inputs
      ensures !Dropped(FLUSHED, 0, inputs, smallest, e)
    {
    }
    assert FileEntries([OUTPUT]) == inputs;
    assert Without([A, B], [A, B]) == [] by {
      assert [A, B][..1] == [A] && [A][..0] == [];
      assert Without([], [A, B]) == [] && Without([A], [A, B]) == [];
    }
    assert Without([TABLE], []) == [TABLE] by {
      assert [TABLE][..0] == [] && Without([], []) == [];
    }
    assert Staying(FLUSHED, c, 0) == [] && Staying(FLUSHED, c, 1) == [TABLE];
  }

  /** The table that was flushed lies between the inputs: they are no longer closed, the output reaches
      across it, and level 1 of the installed version is no longer disjoint. */
  lemma GapBreaksOrder(c: Compaction, smallest: SequenceNumber)
    requires c == WithGap(c.grandparents)
    ensures VersionOK(GAPS) && InputsClosed(GAPS, c) && FreshTable(GAPS, 1, TABLE) && Added(GAPS, 1, TABLE, FLUSHED)
    ensures VersionOK(FLUSHED) && !InputsClosed(FLUSHED, c)
    ensures Outputs(FLUSHED, c, smallest, [OUTPUT]) && Installed(FLUSHED, c, [OUTPUT], BROKEN) && !VersionOK(BROKEN)
  {
    GapsOK();
    GapIsClosed(c);
    TableFits();
    OneOutput(c, smallest);
    AddedInputsClosedIff(GAPS, 1, TABLE, FLUSHED, c);
    assert c.Inputs()[0] == A && c.Inputs()[1] == B;
    assert !Before(BROKEN[1][0].largest, BROKEN[1][1].smallest);
  }

  /** Then a read goes wrong: the first file of level 1 that ends at or after the sought key does not
      hold user key 2.0, while the newest entry is in the file behind it. */
  lemma GapHidesNewest()
    ensures !Less(BROKEN[1][0].largest, LookupKey(2.0, 9)) && forall e :: e in BROKEN[1][0].entries ==> e.key.user != 2.0
    ensures Newest(VersionEntries(BROKEN), 2.0, 9, Val(2.0, 9)) && Val(2.0, 9) in BROKEN[1][1].entries
  {
    forall e | e in VersionEntries(BROKEN) && e.key.user == 2.0
      ensures e.key.sequence <= 9
    {
      StoredSomewhere(BROKEN, e);
      var l :| 0 <= l < |BROKEN| && StoredAt(BROKEN, l, e);
      var f :| f in BROKEN[l] && e in f.entries;
      assert f == OUTPUT || f == TABLE || f == DEEP;
    }
    assert TABLE == BROKEN[1][1] && TABLE.entries[0] == Val(2.0, 9);
    assert StoredAt(BROKEN, 1, Val(2.0, 9));
    StoredSomewhere(BROKEN, Val(2.0, 9));
  }
}
