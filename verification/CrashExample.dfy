/** A write that reached the log, a crash before its writer was told, and the store opened again
    (db/db_impl.cc). */
module CrashExample {
  import opened DbFormat
  import opened Versions
  import opened Preserve
  import opened Store
  import opened Recovery
  import opened Durability

  const NONE: Version := [[], [], [], [], [], [], []]
  const PUT := Batch(1, [Update(TypeValue, 1.0, "v")])
  const ENTRY := Entry(InternalKey(1.0, 1, TypeValue), "v")
  const TABLE := File(5, 1, ENTRY.key, ENTRY.key, [ENTRY])
  const ONE: Version := [[TABLE], [], [], [], [], [], []]

  const NEW := Disk(Manifest(NONE, 0, 2, 0), map[])
  const BEGUN := Disk(Manifest(NONE, 3, 4, 0), map[3 := []])
  const LEFT := Disk(Manifest(NONE, 3, 4, 0), map[3 := [PUT]])
  const AGAIN := Disk(Manifest(ONE, 6, 7, 1), map[3 := [PUT], 6 := []])

  const FIRST := State(Db([], None, NONE, 0, [], 4, None), BEGUN, 3, 3, None, Idle, [])
  const LAST := State(Db([], None, ONE, 1, [], 7, None), AGAIN, 6, 6, None, Idle, [PUT])

  const CRASHED: seq<Sys> := [
    Down(NEW, []),
    Running(FIRST),
    Running(FIRST.(group := Some(Group(PUT, false)))),
    Running(FIRST.(group := Some(Group(PUT, true)), disk := LEFT)),
    Down(LEFT, [PUT]),
    Running(LAST)]

  lemma FirstOpen()
    ensures Open(NEW, [], FIRST)
  {
    LiveUpTo(NEW, 0);
    assert Live(NEW) == [] && Union([]) == {};
    assert OpensWith(NEW, [], [], 3, NONE, FIRST);
  }

  lemma LiveIsPut()
    ensures Live(LEFT) == [PUT]
  {
    LiveUpTo(LEFT, 4);
    assert Records(LEFT.logs, 4, 4) == [];
    assert Records(LEFT.logs, 3, 4) == [PUT] + [];
  }

  lemma EntriesOfPut()
    ensures Union([PUT]) == {ENTRY} && Highest(0, [PUT]) == 1
  {
    assert PUT.EntryAt(0) == ENTRY;
    assert Entries(PUT) == {ENTRY};
  }

  lemma SecondOpen()
    ensures Open(LEFT, [PUT], LAST)
  {
    LiveIsPut();
    EntriesOfPut();
    assert TABLE in [TABLE] && ENTRY in TABLE.entries;
    assert FileEntries([TABLE]) == {ENTRY};
    assert TablesHold([TABLE], {ENTRY}, 5, 6);
    assert Joined(NONE, [TABLE], ONE);
    assert OpensWith(LEFT, [PUT], [TABLE], 6, ONE, LAST);
  }

  lemma StepsOfRun()
    ensures BeginGroup(CRASHED[1].state, CRASHED[2].state) && LogGroup(CRASHED[2].state, CRASHED[3].state)
    ensures Crash(CRASHED[3].state, CRASHED[4])
  {
    assert BEGUN.logs[3] + [PUT] == [PUT] && BEGUN.logs[3 := [PUT]] == LEFT.logs;
  }

  lemma CrashedIsRun()
    ensures Durability.Run(CRASHED)
  {
    hide Open, BeginGroup, LogGroup, Crash;
    FirstOpen();
    SecondOpen();
    StepsOfRun();
  }

  /** What was logged is there, though nobody was told. */
  lemma LoggedWriteReturns()
    ensures Durability.Run(CRASHED) && |CRASHED| == 6
    ensures CRASHED[4] == Down(LEFT, [PUT]) && CRASHED[5] == Running(LAST)
    ensures Read(All(LAST.db), 1.0, 1) == Some("v")
  {
    hide Durability.Run;
    CrashedIsRun();
    EveryReadIsOfTheHistory(CRASHED, 5, 1.0, 1);
    EntriesOfPut();
    assert Newest({ENTRY}, 1.0, 1, ENTRY);
  }
}
