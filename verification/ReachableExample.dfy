/** A run of the store, from an empty one, that resurrects a deleted key: two writes to user key 2.0
    with a snapshot between them, flushes, and two compactions that both merge files of two levels
    (db/version_set.cc, db/db_impl.cc). */
module ReachableExample {
  import opened DbFormat
  import opened Versions
  import opened Ranges
  import opened Setup
  import opened Lookup
  import opened Compact
  import opened Preserve
  import opened Flush
  import opened Store
  import opened Resurrection

  const EMPTY: Version := [[], [], [], [], [], [], []]
  const BASE := MakeFile(3, [Val(1.0, 1)])
  const ABOVE: Version := [[], [], [BASE], [], [], [], []]
  const BELOW: Version := [[], [], [], [BASE], [], [], []]
  const OLD := [Val(1.0, 3), Val(2.0, 5)]
  const ALL3 := [Val(1.0, 3), Del(2.0, 10), Val(2.0, 5)]
  const FIRST := MakeFile(5, ALL3)
  const READY: Version := [[], [], [FIRST], [BASE], [], [], []]
  const SPLIT: Version := [[], [], [], [LEFT, RIGHT], [], [], []]
  const MERGED := MakeFile(10, [Val(1.0, 20)])
  const AFTER: Version := [[], [], [], [MERGED, RIGHT], [], [], []]
  const MOVING := Compaction(2, [BASE], [], [])
  const SPLITTING := Compaction(2, [FIRST], [BASE], [])
  const FIRST_JOB := Job(READY, SPLITTING, 5)
  const SECOND_JOB := Job(LEVELS, CHOICE, 20)

  const RUN: seq<Db> := [
    Db([], None, EMPTY, 0, [], 2, None),
    Db([Val(1.0, 1)], None, EMPTY, 1, [], 2, None),
    Db([], Some([Val(1.0, 1)]), EMPTY, 1, [], 3, None),
    Db([], Some([Val(1.0, 1)]), EMPTY, 1, [], 4, None),
    Db([], None, ABOVE, 1, [], 4, None),
    Db([], None, BELOW, 1, [], 4, None),
    Db(OLD, None, BELOW, 5, [], 4, None),
    Db(OLD, None, BELOW, 5, [5], 4, None),
    Db(ALL3, None, BELOW, 10, [5], 4, None),
    Db([], Some(ALL3), BELOW, 10, [5], 5, None),
    Db([], Some(ALL3), BELOW, 10, [5], 6, None),
    Db([], None, READY, 10, [5], 6, None),
    Db([], None, READY, 10, [5], 6, Some(FIRST_JOB)),
    Db([], None, READY, 10, [5], 7, Some(FIRST_JOB)),
    Db([], None, READY, 10, [5], 8, Some(FIRST_JOB)),
    Db([], None, SPLIT, 10, [5], 8, None),
    Db([], None, SPLIT, 10, [], 8, None),
    Db([Val(1.0, 20)], None, SPLIT, 20, [], 8, None),
    Db([], Some([Val(1.0, 20)]), SPLIT, 20, [], 9, None),
    Db([], Some([Val(1.0, 20)]), SPLIT, 20, [], 10, None),
    Db([], None, LEVELS, 20, [], 10, None),
    Db([], None, LEVELS, 20, [], 10, Some(SECOND_JOB)),
    Db([], None, LEVELS, 20, [], 11, Some(SECOND_JOB)),
    Db([], None, AFTER, 20, [], 11, None)]

  /** A first table is flushed to level 2 and moved to level 3. */
  lemma BaseWrite()
    ensures forall i :: 0 < i <= 3 ==> Step(RUN[i - 1], RUN[i])
  {
    assert Write(RUN[0], RUN[1]);
    assert SwitchMemTable(RUN[1], RUN[2]);
    assert NewFileNumber(RUN[2], RUN[3]);
  }

  lemma BaseFlush()
    ensures Step(RUN[3], RUN[4])
  {
    BaseFits();
    hide ClearDownTo, Added, NumbersBelow;
    assert FlushMemTable(RUN[3], RUN[4]);
  }

  lemma BaseFits()
    ensures ClearDownTo(EMPTY, 2, 1.0, 1.0) && Added(EMPTY, 2, BASE, ABOVE) && NumbersBelow(EMPTY, BASE.number)
  {
  }

  lemma BaseMoves()
    ensures Step(RUN[4], RUN[5])
  {
    BaseIsMoved();
    hide InputsClosed, Installed;
    assert TrivialMove(RUN[4], RUN[5]);
  }

  lemma BaseIsMoved()
    ensures InputsClosed(ABOVE, MOVING) && Installed(ABOVE, MOVING, [BASE], BELOW)
  {
    assert Without([BASE], [BASE]) == Without([], [BASE]) == [];
    assert Staying(ABOVE, MOVING, 2) == [] && Staying(ABOVE, MOVING, 3) == [];
  }

  /** The two writes, with a snapshot between them. */
  lemma FirstWrites()
    ensures Step(RUN[5], RUN[6]) && Step(RUN[6], RUN[7])
  {
    assert Write(RUN[5], RUN[6]);
    assert TakeSnapshot(RUN[6], RUN[7]);
  }

  lemma DeletionWrite()
    ensures Step(RUN[7], RUN[8])
  {
    assert OLD[0] == ALL3[0] && OLD[1] == ALL3[2] && ALL3[0] in ALL3 && ALL3[2] in ALL3;
    assert Write(RUN[7], RUN[8]);
  }

  lemma FirstSwitch()
    ensures Step(RUN[8], RUN[9]) && Step(RUN[9], RUN[10])
  {
    assert SwitchMemTable(RUN[8], RUN[9]);
    assert NewFileNumber(RUN[9], RUN[10]);
  }

  /** Their table goes to level 2. */
  lemma FirstFlush()
    ensures Step(RUN[10], RUN[11])
  {
    assert ClearDownTo(BELOW, 2, 1.0, 2.0);
    assert Added(BELOW, 2, FIRST, READY);
    assert NumbersBelow(BELOW, FIRST.number);
    assert FlushMemTable(RUN[10], RUN[11]);
  }

  lemma FirstCompactionBegins()
    ensures forall i :: 11 < i <= 14 ==> Step(RUN[i - 1], RUN[i])
  {
    assert SPLITTING.Inputs() == [FIRST, BASE];
    forall f, g, user | f in [FIRST, BASE] && g in [FIRST, BASE] && Spans(f, g, user)
      ensures exists h :: h in [FIRST, BASE] && Holds(h, user)
    {
      assert FIRST in [FIRST, BASE] && Holds(FIRST, user);
    }
    assert InputsClosed(READY, SPLITTING);
    assert BeginCompaction(RUN[11], RUN[12]);
    assert NewFileNumber(RUN[12], RUN[13]);
    assert NewFileNumber(RUN[13], RUN[14]);
  }

  /** With the snapshot at 5 only the oldest value of 1.0 is dropped; the outputs are cut between the
      entries of 2.0. */
  lemma FirstCompactionKeeps()
    ensures FileEntries([LEFT, RIGHT]) == Kept(READY, 2, InputEntries(SPLITTING), 5)
  {
    var inputs := InputEntries(SPLITTING);
    assert SPLITTING.Inputs() == [FIRST, BASE];
    EntriesOfTwo(FIRST, BASE);
    EntriesOfTwo(LEFT, RIGHT);
    assert inputs == {Val(1.0, 3), Del(2.0, 10), Val(2.0, 5), Val(1.0, 1)};
    assert Hidden(inputs, 5, Val(1.0, 1));
    forall e | e in inputs && e != Val(1.0, 1)
      ensures !Dropped(READY, 2, inputs, 5, e)
    {
    }
    assert FileEntries([LEFT, RIGHT]) == inputs - {Val(1.0, 1)};
  }

  lemma FirstCompactionOutput()
    ensures OutputsFrom(SPLITTING, [LEFT, RIGHT]) && Installed(READY, SPLITTING, [LEFT, RIGHT], SPLIT)
  {
    FirstCompactionKeeps();
    assert OutputsFrom(SPLITTING, [LEFT, RIGHT]);
    assert Without([FIRST], [FIRST]) == Without([], [FIRST]) == [];
    assert Without([BASE], [BASE]) == Without([], [BASE]) == [];
    assert Staying(READY, SPLITTING, 2) == [] && Staying(READY, SPLITTING, 3) == [];
  }

  lemma FirstCompactionInstalls()
    ensures Step(RUN[14], RUN[15])
  {
    FirstCompactionKeeps();
    FirstCompactionOutput();
    hide OutputsFrom, FileEntries, Kept, Installed;
    assert InstallCompaction(RUN[14], RUN[15]);
  }

  lemma SnapshotIsReleased()
    ensures Step(RUN[15], RUN[16])
  {
    assert [5][..0] + [5][1..] == [];
    assert ReleaseSnapshot(RUN[15], RUN[16]);
  }

  lemma SecondWrite()
    ensures forall i :: 16 < i <= 19 ==> Step(RUN[i - 1], RUN[i])
  {
    assert Write(RUN[16], RUN[17]);
    assert SwitchMemTable(RUN[17], RUN[18]);
    assert NewFileNumber(RUN[18], RUN[19]);
  }

  lemma SecondFlush()
    ensures Step(RUN[19], RUN[20])
  {
    assert ClearDownTo(SPLIT, 2, 1.0, 1.0);
    assert Added(SPLIT, 2, TOP, LEVELS);
    assert NumbersBelow(SPLIT, TOP.number);
    assert FlushMemTable(RUN[19], RUN[20]);
  }

  lemma SecondCompactionBegins()
    ensures forall i :: 20 < i <= 22 ==> Step(RUN[i - 1], RUN[i])
  {
    ExampleVersionOK();
    ExampleIsChosen();
    ChosenIsClosed(LEVELS, CHOICE);
    assert CHOICE.Inputs() == [TOP, LEFT];
    forall f, g, user | f in [TOP, LEFT] && g in [TOP, LEFT] && Spans(f, g, user)
      ensures exists h :: h in [TOP, LEFT] && Holds(h, user)
    {
      assert LEFT in [TOP, LEFT] && Holds(LEFT, user);
    }
    assert BeginCompaction(RUN[20], RUN[21]);
    assert NewFileNumber(RUN[21], RUN[22]);
  }

  /** Without a snapshot only the newest value of 1.0 is kept: the marker of 2.0 is dropped. */
  lemma SecondCompactionKeeps()
    ensures FileEntries([MERGED]) == Kept(LEVELS, 2, InputEntries(CHOICE), 20)
  {
    var inputs := InputEntries(CHOICE);
    assert CHOICE.Inputs() == [TOP, LEFT];
    EntriesOfTwo(TOP, LEFT);
    EntriesOfOne(MERGED);
    assert inputs == {Val(1.0, 20), Val(1.0, 3), Del(2.0, 10)};
    assert Hidden(inputs, 20, Val(1.0, 3)) && Obsolete(LEVELS, 2, 20, Del(2.0, 10));
    assert !Dropped(LEVELS, 2, inputs, 20, Val(1.0, 20));
  }

  lemma SecondCompactionOutput()
    ensures Outputs(LEVELS, CHOICE, 20, [MERGED]) && Installed(LEVELS, CHOICE, [MERGED], AFTER)
  {
    SecondCompactionKeeps();
    WithoutMembers(LEVELS[3], [LEFT]);
    assert Without([TOP], [TOP]) == Without([], [TOP]) == [];
    assert Staying(LEVELS, CHOICE, 2) == [];
  }

  lemma SecondCompactionInstalls()
    ensures Step(RUN[22], RUN[23])
  {
    SecondCompactionOutput();
    assert InstallCompaction(RUN[22], RUN[23]);
  }

  /** The run is one of the store's, and its last step changes what is read of user key 2.0: it was
      deleted, and is there again. */
  lemma DeletedKeyReturns()
    ensures Store.Run(RUN) && |RUN| == 24
    ensures Read(All(RUN[22]), 2.0, 20) == None && Read(All(RUN[23]), 2.0, 20) != None
  {
    RunIsOfStore();
    ExampleResurrects(20);
    SecondCompactionOutput();
    ResurrectionChangesRead(LEVELS, CHOICE, 20, [MERGED], AFTER, 2.0);
    assert All(RUN[22]) == VersionEntries(LEVELS) && All(RUN[23]) == VersionEntries(AFTER);
  }

  lemma RunIsOfStore()
    ensures Store.Run(RUN) && |RUN| == 24
  {
    hide Step;
    BaseWrite();
    BaseFlush();
    BaseMoves();
    FirstWrites();
    DeletionWrite();
    FirstSwitch();
    FirstFlush();
    FirstCompactionBegins();
    FirstCompactionInstalls();
    SnapshotIsReleased();
    SecondWrite();
    SecondFlush();
    SecondCompactionBegins();
    SecondCompactionInstalls();
  }
}
