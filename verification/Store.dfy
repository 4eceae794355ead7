/** Whole runs of the store: writes, memtable switches, flushes, snapshots and at most one
    compaction in the background, in any order that the mutex allows (db/db_impl.cc). */
module Store {
  import opened DbFormat
  import opened Versions
  import opened Ranges
  import opened Setup
  import opened Lookup
  import opened Compact
  import opened Preserve
  import opened Flush

  /** A compaction that has released the mutex: the version it reads, its inputs, and the
      oldest snapshot when it began. */
  datatype Job = Job(version: Version, c: Compaction, smallest: SequenceNumber)

  datatype Db = Db(mem: seq<Entry>, imm: Option<seq<Entry>>, current: Version, lastSequence: SequenceNumber,
                   snapshots: seq<SequenceNumber>, nextNumber: nat, job: Option<Job>)

  ghost function All(db: Db): set<Entry> {
    Elements(db.mem) + ImmEntries(db.imm) + VersionEntries(db.current)
  }

  function Oldest(db: Db): SequenceNumber {
    if db.snapshots == [] then db.lastSequence else db.snapshots[0]
  }

  ghost predicate NumbersBelow(v: Version, n: nat) {
    forall l, f :: 0 <= l < |v| && f in v[l] ==> f.number < n
  }

  ghost predicate JobOK(db: Db) {
    db.job.Some? ==>
      var job := db.job.value;
      && InputsClosed(db.current, job.c) && Covered(job.c.Inputs())
      && job.smallest <= Oldest(db)
      && Kept(db.current, job.c.level, InputEntries(job.c), job.smallest)
      == Kept(job.version, job.c.level, InputEntries(job.c), job.smallest)
  }

  ghost predicate SnapshotsOK(db: Db) {
    && (forall i, j :: 0 <= i < j < |db.snapshots| ==> db.snapshots[i] <= db.snapshots[j])
    && (forall i :: 0 <= i < |db.snapshots| ==> db.snapshots[i] <= db.lastSequence)
  }

  ghost predicate RunsOK(db: Db) {
    && Sorted(db.mem) && (db.imm.Some? ==> Sorted(db.imm.value))
    && EntriesNewer(Elements(db.mem), ImmEntries(db.imm) + VersionEntries(db.current))
    && EntriesNewer(ImmEntries(db.imm), VersionEntries(db.current))
    && forall e :: e in All(db) ==> e.key.sequence <= db.lastSequence
  }

  ghost predicate Inv(db: Db) {
    && VersionOK(db.current) && NumbersBelow(db.current, db.nextNumber)
    && RunsOK(db) && SnapshotsOK(db) && JobOK(db)
  }

  ghost predicate Init(db: Db) {
    db == Db([], None, [[], [], [], [], [], [], []], 0, [], 2, None)
  }

  // ---- Steps

  /** A group of writes is inserted under new sequence numbers. */
  ghost predicate Write(db: Db, db': Db) {
    && db' == db.(mem := db'.mem, lastSequence := db'.lastSequence)
    && db.lastSequence <= db'.lastSequence && Sorted(db'.mem)
    && (forall e :: e in db.mem ==> e in db'.mem)
    && (forall e :: e in db'.mem ==> e in db.mem || db.lastSequence < e.key.sequence <= db'.lastSequence)
  }

  /** VersionSet::NewFileNumber, for a table. */
  ghost predicate NewFileNumber(db: Db, db': Db) {
    db' == db.(nextNumber := db.nextNumber + 1)
  }

  /** MakeRoomForWrite: the new log takes a file number. */
  ghost predicate SwitchMemTable(db: Db, db': Db) {
    db.imm.None? && db' == db.(mem := [], imm := Some(db.mem), nextNumber := db.nextNumber + 1)
  }

  /** CompactMemTable: also runs inside the compaction loop. The table's number was allotted after
      those of the version's files. An empty memtable adds no table. */
  ghost predicate FlushMemTable(db: Db, db': Db) {
    && db.imm.Some? && db' == db.(imm := None, current := db'.current)
    && if db.imm.value == [] then db'.current == db.current
       else exists level: nat, f: File ::
              && f.entries == db.imm.value && NumbersBelow(db.current, f.number) && f.number < db.nextNumber
              && WellFormed(f) && level <= MAX_MEM_COMPACT_LEVEL
              && (level > 0 ==> ClearDownTo(db.current, level, f.smallest.user, f.largest.user))
              && Added(db.current, level, f, db'.current)
  }

  /** BackgroundCompaction picks inputs and DoCompactionWork fixes the oldest snapshot. */
  ghost predicate BeginCompaction(db: Db, db': Db) {
    && db.job.None? && db'.job.Some?
    && var job := db'.job.value;
       && db' == db.(job := Some(job)) && job.version == db.current && job.smallest == Oldest(db)
       && InputsClosed(db.current, job.c) && Covered(job.c.Inputs())
  }

  /** InstallCompactionResults: what the loop kept, judged by the version it began with, goes
      into the version that is current now. */
  ghost predicate InstallCompaction(db: Db, db': Db) {
    && db.job.Some? && db' == db.(current := db'.current, job := None)
    && var job := db.job.value;
       exists outs: seq<File> ::
         && OutputsFrom(job.c, outs)
         && FileEntries(outs) == Kept(job.version, job.c.level, InputEntries(job.c), job.smallest)
         && (forall o :: o in outs ==> o.number < db.nextNumber)
         && Installed(db.current, job.c, outs, db'.current)
  }

  /** The compaction failed or was abandoned. */
  ghost predicate DropCompaction(db: Db, db': Db) {
    db.job.Some? && db' == db.(job := None)
  }

  /** A compaction of one file that reaches nothing is a change of level. */
  ghost predicate TrivialMove(db: Db, db': Db) {
    && db.job.None? && db' == db.(current := db'.current)
    && exists c: Compaction ::
         && InputsClosed(db.current, c) && |c.inputs0| == 1 && c.inputs1 == []
         && Installed(db.current, c, c.inputs0, db'.current)
  }

  ghost predicate TakeSnapshot(db: Db, db': Db) {
    db' == db.(snapshots := db.snapshots + [db.lastSequence])
  }

  ghost predicate ReleaseSnapshot(db: Db, db': Db) {
    exists i :: 0 <= i < |db.snapshots| && db' == db.(snapshots := db.snapshots[..i] + db.snapshots[i + 1..])
  }

  ghost predicate Step(db: Db, db': Db) {
    || Write(db, db') || NewFileNumber(db, db') || SwitchMemTable(db, db') || FlushMemTable(db, db')
    || BeginCompaction(db, db') || InstallCompaction(db, db') || DropCompaction(db, db') || TrivialMove(db, db')
    || TakeSnapshot(db, db') || ReleaseSnapshot(db, db')
  }

  /** The step installs a compaction that resurrects no user key. */
  ghost predicate Faithful(db: Db, db': Db) {
    InstallCompaction(db, db') ==>
      forall user :: !Resurrects(db.current, db.job.value.c, db.job.value.smallest, user)
  }

  // ---- Reads of a store in two parts, the first newer than the second

  /** Replacing the older part by one that reads the same changes no read. */
  lemma ReadThroughNewer(a: set<Entry>, b: set<Entry>, b': set<Entry>, user: UserKey, snap: SequenceNumber)
    requires UniqueSequence(a) && UniqueSequence(b) && UniqueSequence(b')
    requires EntriesNewer(a, b) && EntriesNewer(a, b')
    requires Read(b, user, snap) == Read(b', user, snap)
    ensures Read(a + b, user, snap) == Read(a + b', user, snap)
  {
    ReadOfTwoParts(a, b, user, snap);
    ReadOfTwoParts(a, b', user, snap);
  }

  lemma ReadOfTwoParts(a: set<Entry>, b: set<Entry>, user: UserKey, snap: SequenceNumber)
    requires UniqueSequence(a) && UniqueSequence(b) && EntriesNewer(a, b)
    ensures Read(a + b, user, snap) == if Nothing(a, user, snap) then Read(b, user, snap) else Read(a, user, snap)
  {
    UniqueUnion(a, b);
    NothingOrNewest(a, user, snap);
    NothingOrNewest(b, user, snap);
    if e :| Newest(a, user, snap, e) {
      assert Newest(a + b, user, snap, e);
      ReadOfNewest(a, user, snap, e);
      ReadOfNewest(a + b, user, snap, e);
    } else if e :| Newest(b, user, snap, e) {
      assert Newest(a + b, user, snap, e);
      ReadOfNewest(b, user, snap, e);
      ReadOfNewest(a + b, user, snap, e);
    }
  }

  ghost function Memory(db: Db): set<Entry> {
    Elements(db.mem) + ImmEntries(db.imm)
  }

  lemma MemoryIsUnique(db: Db)
    requires RunsOK(db)
    ensures UniqueSequence(Memory(db)) && EntriesNewer(Memory(db), VersionEntries(db.current))
  {
    RunIsUnique(db.mem);
    if db.imm.Some? {
      RunIsUnique(db.imm.value);
    }
    UniqueUnion(Elements(db.mem), ImmEntries(db.imm));
  }

  // ---- Each step keeps the invariant and the reads at live snapshots

  /** What a step owes to readers at `snap`. */
  ghost predicate ReadsAgree(db: Db, db': Db, snap: SequenceNumber) {
    forall user :: Read(All(db), user, snap) == Read(All(db'), user, snap)
  }

  lemma WriteStep(db: Db, db': Db, snap: SequenceNumber)
    requires Inv(db) && Write(db, db')
    ensures Inv(db')
    ensures snap <= db.lastSequence ==> ReadsAgree(db, db', snap)
  {
    forall x, y | x in Elements(db'.mem) && y in ImmEntries(db'.imm) + VersionEntries(db'.current) && x.key.user == y.key.user
      ensures x.key.sequence > y.key.sequence
    {
      assert y in All(db);
    }
    assert RunsOK(db');
    if snap <= db.lastSequence {
      MemoryIsUnique(db');
      VersionIsUnique(db'.current);
      UniqueUnion(Memory(db'), VersionEntries(db'.current));
      assert All(db') == Memory(db') + VersionEntries(db'.current);
      forall user
        ensures Read(All(db), user, snap) == Read(All(db'), user, snap)
      {
        ShrunkRead(All(db'), All(db), user, snap);
      }
    }
  }

  lemma SwitchStep(db: Db, db': Db, snap: SequenceNumber)
    requires Inv(db) && SwitchMemTable(db, db')
    ensures Inv(db') && ReadsAgree(db, db', snap)
  {
    assert All(db') == All(db);
  }

  lemma FlushStep(db: Db, db': Db, snap: SequenceNumber)
    requires Inv(db) && FlushMemTable(db, db')
    ensures Inv(db') && ReadsAgree(db, db', snap)
  {
    if db.imm.value == [] {
      assert All(db') == All(db);
    } else {
      var level: nat, f: File :|
        && f.entries == db.imm.value && NumbersBelow(db.current, f.number) && f.number < db.nextNumber
        && WellFormed(f) && level <= MAX_MEM_COMPACT_LEVEL
        && (level > 0 ==> ClearDownTo(db.current, level, f.smallest.user, f.largest.user))
        && Added(db.current, level, f, db'.current);
      FlushIsFresh(db, level, f);
      FlushedTable(db, db', level, f);
    }
  }

  lemma FlushedTable(db: Db, db': Db, level: nat, f: File)
    requires Inv(db) && db.imm.Some? && f.entries == db.imm.value && f.number < db.nextNumber
    requires FreshTable(db.current, level, f) && Added(db.current, level, f, db'.current)
    requires db' == db.(imm := None, current := db'.current)
    ensures Inv(db') && All(db') == All(db)
  {
    AddedVersionOK(db.current, level, f, db'.current);
    AddedEntries(db.current, level, f, db'.current);
    assert All(db') == All(db);
    assert NumbersBelow(db'.current, db.nextNumber);
    if db.job.Some? {
      AddedInputsClosed(db.current, level, f, db'.current, db.job.value.c);
      AddedKeepsKept(db.current, level, f, db'.current, db.job.value.c, db.job.value.smallest);
    }
  }

  lemma FlushIsFresh(db: Db, level: nat, f: File)
    requires Inv(db) && db.imm.Some? && f.entries == db.imm.value && NumbersBelow(db.current, f.number)
    requires WellFormed(f) && level <= MAX_MEM_COMPACT_LEVEL
    requires level > 0 ==> ClearDownTo(db.current, level, f.smallest.user, f.largest.user)
    ensures FreshTable(db.current, level, f)
  {
    forall l, g | 0 <= l < |db.current| && g in db.current[l]
      ensures NewerThan(f, g)
    {
      forall e, x | e in f.entries && x in g.entries && e.key.user == x.key.user
        ensures e.key.sequence > x.key.sequence
      {
        assert StoredAt(db.current, l, x);
        StoredSomewhere(db.current, x);
        assert e in ImmEntries(db.imm);
      }
    }
  }

  lemma BeginStep(db: Db, db': Db, snap: SequenceNumber)
    requires Inv(db) && BeginCompaction(db, db')
    ensures Inv(db') && ReadsAgree(db, db', snap)
  {
    assert All(db') == All(db);
  }

  lemma InstallStep(db: Db, db': Db, snap: SequenceNumber)
    requires Inv(db) && InstallCompaction(db, db')
    ensures Inv(db')
    ensures Faithful(db, db') && Oldest(db) <= snap ==> ReadsAgree(db, db', snap)
  {
    var job := db.job.value;
    var outs: seq<File> :|
      && OutputsFrom(job.c, outs)
      && FileEntries(outs) == Kept(job.version, job.c.level, InputEntries(job.c), job.smallest)
      && (forall o :: o in outs ==> o.number < db.nextNumber)
      && Installed(db.current, job.c, outs, db'.current);
    assert Outputs(db.current, job.c, job.smallest, outs);
    InstalledInv(db, db', job.c, outs);
    if Faithful(db, db') && Oldest(db) <= snap {
      forall user
        ensures Read(All(db), user, snap) == Read(All(db'), user, snap)
      {
        ChangedReadResurrects(db.current, job.c, job.smallest, outs, db'.current, user, snap);
        VersionChangeBelowMemory(db, db', user, snap);
      }
    }
  }

  lemma InstalledInv(db: Db, db': Db, c: Compaction, outs: seq<File>)
    requires Inv(db) && InputsClosed(db.current, c) && OutputsFrom(c, outs) && Installed(db.current, c, outs, db'.current)
    requires db' == db.(current := db'.current, job := None) && forall o :: o in outs ==> o.number < db.nextNumber
    ensures Inv(db')
  {
    InstalledVersionOK(db.current, c, outs, db'.current);
    EntriesSplit(db.current, c);
    EntriesAfter(db.current, c, outs, db'.current);
    InstalledNumbers(db.current, c, outs, db'.current, db'.nextNumber);
    assert VersionEntries(db'.current) <= VersionEntries(db.current);
    assert All(db') <= All(db);
  }

  lemma InstalledNumbers(v: Version, c: Compaction, outs: seq<File>, w: Version, n: nat)
    requires |v| == NUM_LEVELS && Installed(v, c, outs, w) && NumbersBelow(v, n) && forall o :: o in outs ==> o.number < n
    ensures NumbersBelow(w, n)
  {
    WithoutMembers(v[c.level], c.inputs0);
    WithoutMembers(v[c.level + 1], c.inputs1);
    forall l, f | 0 <= l < |w| && f in w[l]
      ensures f.number < n
    {
      assert f in Staying(v, c, l) || f in outs;
    }
  }

  lemma VersionChangeBelowMemory(db: Db, db': Db, user: UserKey, snap: SequenceNumber)
    requires RunsOK(db) && RunsOK(db') && Memory(db) == Memory(db') && VersionOK(db.current) && VersionOK(db'.current)
    requires Read(VersionEntries(db.current), user, snap) == Read(VersionEntries(db'.current), user, snap)
    ensures Read(All(db), user, snap) == Read(All(db'), user, snap)
  {
    MemoryIsUnique(db);
    MemoryIsUnique(db');
    VersionIsUnique(db.current);
    VersionIsUnique(db'.current);
    ReadThroughNewer(Memory(db), VersionEntries(db.current), VersionEntries(db'.current), user, snap);
  }

  lemma MoveStep(db: Db, db': Db, snap: SequenceNumber)
    requires Inv(db) && TrivialMove(db, db')
    ensures Inv(db') && ReadsAgree(db, db', snap)
  {
    var c: Compaction :|
      && InputsClosed(db.current, c) && |c.inputs0| == 1 && c.inputs1 == []
      && Installed(db.current, c, c.inputs0, db'.current);
    assert c.Inputs() == c.inputs0;
    assert c.inputs0[0] in c.inputs0;
    InstalledVersionOK(db.current, c, c.inputs0, db'.current);
    EntriesSplit(db.current, c);
    EntriesAfter(db.current, c, c.inputs0, db'.current);
    InstalledNumbers(db.current, c, c.inputs0, db'.current, db.nextNumber);
    assert All(db') == All(db);
  }

  lemma SnapshotStep(db: Db, db': Db, snap: SequenceNumber)
    requires Inv(db)
    requires TakeSnapshot(db, db') || ReleaseSnapshot(db, db') || DropCompaction(db, db') || NewFileNumber(db, db')
    ensures Inv(db') && ReadsAgree(db, db', snap)
  {
    assert All(db') == All(db);
    if ReleaseSnapshot(db, db') {
      var i :| 0 <= i < |db.snapshots| && db' == db.(snapshots := db.snapshots[..i] + db.snapshots[i + 1..]);
      ReleaseKeepsOrder(db, db', i);
    }
  }

  lemma ReleaseKeepsOrder(db: Db, db': Db, i: nat)
    requires SnapshotsOK(db) && i < |db.snapshots|
    requires db' == db.(snapshots := db.snapshots[..i] + db.snapshots[i + 1..])
    ensures SnapshotsOK(db') && Oldest(db) <= Oldest(db')
  {
    forall p | 0 <= p < |db'.snapshots|
      ensures db'.snapshots[p] == db.snapshots[if p < i then p else p + 1]
    {
    }
  }

  /** Every step keeps the invariant, whatever a compaction drops. */
  lemma StepKeepsInv(db: Db, db': Db)
    requires Inv(db) && Step(db, db')
    ensures Inv(db')
  {
    StepKeepsReads(db, db', db.lastSequence);
  }

  /** Every faithful step keeps all reads at or above the oldest snapshot. */
  lemma StepKeepsReads(db: Db, db': Db, snap: SequenceNumber)
    requires Inv(db) && Step(db, db')
    ensures Inv(db')
    ensures Faithful(db, db') && Oldest(db) <= snap <= db.lastSequence ==> ReadsAgree(db, db', snap)
  {
    if Write(db, db') {
      WriteStep(db, db', snap);
    } else if SwitchMemTable(db, db') {
      SwitchStep(db, db', snap);
    } else if FlushMemTable(db, db') {
      FlushStep(db, db', snap);
    } else if BeginCompaction(db, db') {
      BeginStep(db, db', snap);
    } else if InstallCompaction(db, db') {
      InstallStep(db, db', snap);
    } else if TrivialMove(db, db') {
      MoveStep(db, db', snap);
    } else {
      SnapshotStep(db, db', snap);
    }
  }

  // ---- Runs

  ghost predicate Run(run: seq<Db>) {
    && run != [] && Init(run[0])
    && forall i :: 0 < i < |run| ==> Step(run[i - 1], run[i])
  }

  lemma InitKeepsInv(db: Db)
    requires Init(db)
    ensures Inv(db)
  {
    EmptyVersion(db.current);
    assert All(db) == {};
  }

  lemma EmptyVersion(v: Version)
    requires v == [[], [], [], [], [], [], []]
    ensures VersionOK(v) && VersionEntries(v) == {}
  {
    forall e
      ensures e !in VersionEntries(v)
    {
      StoredSomewhere(v, e);
    }
  }

  /** In every reachable state levels above 0 are sorted and disjoint, a user key's entries are
      newer in lower levels, and a running compaction's inputs are still closed. */
  lemma {:induction false} ReachableInv(run: seq<Db>, i: nat)
    requires Run(run) && i < |run|
    ensures Inv(run[i])
  {
    if i == 0 {
      InitKeepsInv(run[0]);
    } else {
      ReachableInv(run, i - 1);
      StepKeepsInv(run[i - 1], run[i]);
    }
  }

  /** A snapshot reads the same values for as long as it is held, as long as no compaction
      resurrects a key. */
  lemma {:induction false} SnapshotReadsAreStable(run: seq<Db>, i: nat, j: nat, snap: SequenceNumber, user: UserKey)
    requires Run(run) && i <= j < |run|
    requires forall k :: i <= k <= j ==> snap in run[k].snapshots
    requires forall k :: i < k <= j ==> Faithful(run[k - 1], run[k])
    ensures Read(All(run[i]), user, snap) == Read(All(run[j]), user, snap)
  {
    hide Init, Step, Faithful, Inv, All, Read;
    if i < j {
      SnapshotReadsAreStable(run, i, j - 1, snap, user);
      ReachableInv(run, j - 1);
      SnapshotReadStep(run[j - 1], run[j], snap, user);
    }
  }

  lemma SnapshotReadStep(db: Db, db': Db, snap: SequenceNumber, user: UserKey)
    requires Inv(db) && Step(db, db') && Faithful(db, db') && snap in db.snapshots
    ensures Read(All(db), user, snap) == Read(All(db'), user, snap)
  {
    SnapshotsInOrder(db, snap);
    StepKeepsReads(db, db', snap);
  }

  lemma SnapshotsInOrder(db: Db, snap: SequenceNumber)
    requires SnapshotsOK(db) && snap in db.snapshots
    ensures Oldest(db) <= snap <= db.lastSequence
  {
    var i :| 0 <= i < |db.snapshots| && db.snapshots[i] == snap;
  }
}
