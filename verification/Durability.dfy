/** Whole runs of the store with crashes: group commits, memtable switches, flushes, manifest
    writes, log removal, crashes at any point, and reopening, which may crash too
    (db/db_impl.cc, db/version_set.cc). What a log or manifest append puts on disk stays there. */
module Durability {
  import opened Concatenation
  import opened DbFormat
  import opened Versions
  import opened Lookup
  import opened Setup
  import opened Compact
  import opened Preserve
  import opened Flush
  import opened Store
  import opened Recovery

  /** The group that the front writer is committing. */
  datatype Group = Group(batch: Batch, logged: bool)

  /** The background thread: building a memtable's table, or inside LogAndApply. */
  datatype Background =
    | Idle
    | Building(number: nat)
    | Editing(flush: bool, record: Manifest, durable: bool)

  /** A running store. `history` holds the batches that a reader must find: those acknowledged, and
      those that earlier crashes left in the log. */
  datatype State = State(db: Db, disk: Disk, logNumber: nat, logFile: nat, group: Option<Group>, bg: Background,
                         history: seq<Batch>)

  datatype Sys = Running(state: State) | Down(disk: Disk, history: seq<Batch>)

  ghost predicate Init(s: Sys) {
    s == Down(Disk(Manifest([[], [], [], [], [], [], []], 0, 2, 0), map[]), [])
  }

  // ---- Writing

  ghost predicate BeginGroup(s: State, s': State) {
    && s.group.None? && s'.group.Some?
    && s' == s.(group := Some(Group(s'.group.value.batch, false)))
    && s'.group.value.batch.first == s.db.lastSequence + 1
  }

  ghost predicate LogGroup(s: State, s': State) {
    && s.group.Some? && !s.group.value.logged && s.logFile in s.disk.logs
    && var batch := s.group.value.batch;
       s' == s.(group := Some(Group(batch, true)),
                disk := s.disk.(logs := s.disk.logs[s.logFile := s.disk.logs[s.logFile] + [batch]]))
  }

  /** The group is in the log and in the memtable: its writers are acknowledged. */
  ghost predicate CommitGroup(s: State, s': State) {
    && s.group.Some? && s.group.value.logged
    && var batch := s.group.value.batch;
       && s' == s.(db := s.db.(mem := s'.db.mem, lastSequence := s.db.lastSequence + |batch.updates|), group := None, history := s.history + [batch])
       && Sorted(s'.db.mem) && Elements(s'.db.mem) == Elements(s.db.mem) + Entries(batch)
  }

  /** The append failed: the group's sequence numbers are used up all the same. */
  ghost predicate FailGroup(s: State, s': State) {
    && s.group.Some? && !s.group.value.logged
    && s' == s.(db := s.db.(lastSequence := s.db.lastSequence + |s.group.value.batch.updates|), group := None)
  }

  /** MakeRoomForWrite, by the front writer before it builds its group. */
  ghost predicate Switch(s: State, s': State) {
    && s.group.None? && SwitchMemTable(s.db, s'.db)
    && s' == s.(db := s'.db, logFile := s.db.nextNumber, disk := s.disk.(logs := s.disk.logs[s.db.nextNumber := []]))
  }

  // ---- The background thread

  /** WriteLevel0Table takes a file number and releases the mutex. */
  ghost predicate StartTable(s: State, s': State) {
    && s.bg.Idle? && s.db.imm.Some? && NewFileNumber(s.db, s'.db)
    && s' == s.(db := s'.db, bg := Building(s.db.nextNumber))
  }

  /** The immutable memtable's table `number`, at the level that suits the version. */
  ghost predicate TableAdded(db: Db, number: nat, next: Version) {
    && db.imm.Some?
    && if db.imm.value == [] then next == db.current
       else exists level: nat, f: File ::
              && f.entries == db.imm.value && f.number == number && WellFormed(f) && level <= MAX_MEM_COMPACT_LEVEL
              && (level > 0 ==> ClearDownTo(db.current, level, f.smallest.user, f.largest.user))
              && Added(db.current, level, f, next)
  }

  /** LogAndApply is called with the edit of a flush: earlier logs are no longer needed. */
  ghost predicate BeginFlushEdit(s: State, s': State) {
    && s.bg.Building? && s'.bg.Editing?
    && TableAdded(s.db, s.bg.number, s'.bg.record.version)
    && s' == s.(bg := Editing(true, Manifest(s'.bg.record.version, s.logFile, s.db.nextNumber, s.db.lastSequence), false))
  }

  /** LogAndApply is called with the edit of a compaction. */
  ghost predicate BeginCompactionEdit(s: State, s': State) {
    && s.bg.Idle? && s'.bg.Editing?
    && s' == s.(bg := Editing(false, Manifest(s'.bg.record.version, s.logNumber, s.db.nextNumber, s.db.lastSequence), false))
    && CompactionInstalls(s.db, Edited(s.db, s'.bg))
  }

  ghost predicate CompactionInstalls(db: Db, db': Db) {
    InstallCompaction(db, db') || TrivialMove(db, db')
  }

  /** The manifest record is written while the mutex is released. */
  ghost predicate WriteEdit(s: State, s': State) {
    && s.bg.Editing? && !s.bg.durable
    && s' == s.(bg := s.bg.(durable := true), disk := s.disk.(manifest := s.bg.record))
  }

  /** What installing the edit makes of the store. */
  function Edited(db: Db, bg: Background): Db
    requires bg.Editing?
  {
    if bg.flush then db.(imm := None, current := bg.record.version)
    else db.(current := bg.record.version, job := None)
  }

  ghost predicate InstallEdit(s: State, s': State) {
    && s.bg.Editing? && s.bg.durable
    && s' == s.(db := Edited(s.db, s.bg), logNumber := s.bg.record.logNumber, bg := Idle)
  }

  /** Steps that touch neither logs nor manifest. */
  ghost predicate Other(s: State, s': State) {
    && s' == s.(db := s'.db)
    && (|| TakeSnapshot(s.db, s'.db) || ReleaseSnapshot(s.db, s'.db) || NewFileNumber(s.db, s'.db)
        || (s.bg.Idle? && (BeginCompaction(s.db, s'.db) || DropCompaction(s.db, s'.db))))
  }

  /** RemoveObsoleteFiles: only logs below the installed log number may go. */
  ghost predicate RemoveLogs(s: State, s': State) {
    && s' == s.(disk := s.disk.(logs := s'.disk.logs))
    && s'.disk.logs.Keys <= s.disk.logs.Keys
    && (forall n :: n in s.disk.logs && n >= s.logNumber ==> n in s'.disk.logs)
    && (forall n :: n in s'.disk.logs ==> s'.disk.logs[n] == s.disk.logs[n])
  }

  // ---- Crashing and opening

  /** Memory is lost. A group that had reached the log survives, acknowledged or not. */
  ghost predicate Crash(s: State, s': Sys) {
    s' == Down(s.disk, s.history + Logged(s.group))
  }

  function Logged(group: Option<Group>): seq<Batch> {
    if group.Some? && group.value.logged then [group.value.batch] else []
  }

  ghost predicate AboveLogs(d: Disk, n: nat) {
    d.manifest.nextFile < n && forall k :: k in d.logs ==> k < n
  }

  /** An Open that crashes after it created its log. */
  ghost predicate CreateLog(d: Disk, d': Disk) {
    exists n: nat :: AboveLogs(d, n) && d' == d.(logs := d.logs[n := []])
  }

  /** Open: Recover, a new log, and the edit of the recovered tables. */
  ghost predicate Open(d: Disk, history: seq<Batch>, s': State) {
    exists tables: seq<File>, next: nat, w: Version :: OpensWith(d, history, tables, next, w, s')
  }

  ghost predicate OpensWith(d: Disk, history: seq<Batch>, tables: seq<File>, next: nat, w: Version, s': State) {
    var last := Highest(d.manifest.lastSequence, Live(d));
    && TablesHold(tables, Union(Live(d)), d.manifest.nextFile + 1, next) && AboveLogs(d, next)
    && Joined(d.manifest.version, tables, w)
    && s' == State(Db([], None, w, last, [], next + 1, None),
                   Disk(Manifest(w, next, next + 1, last), d.logs[next := []]), next, next, None, Idle, history)
  }

  ghost predicate Step(s: State, s': State) {
    || BeginGroup(s, s') || LogGroup(s, s') || CommitGroup(s, s') || FailGroup(s, s') || Switch(s, s')
    || StartTable(s, s') || BeginFlushEdit(s, s') || BeginCompactionEdit(s, s') || WriteEdit(s, s') || InstallEdit(s, s')
    || Other(s, s') || RemoveLogs(s, s')
  }

  ghost predicate SysStep(s: Sys, s': Sys) {
    match s
    case Running(state) => Crash(state, s') || (s'.Running? && Step(state, s'.state))
    case Down(d, history) =>
      if s'.Running? then Open(d, history, s'.state) else CreateLog(d, s'.disk) && s'.history == history
  }

  /** No compaction about to be installed resurrects a user key. */
  ghost predicate FaithfulEdit(s: State) {
    s.bg.Editing? && !s.bg.flush ==> Faithful(s.db, Edited(s.db, s.bg))
  }

  // ---- The invariant

  function ImmBatches(s: State): seq<Batch>
  {
    if s.db.imm.Some? && s.logNumber in s.disk.logs then s.disk.logs[s.logNumber] else []
  }

  /** The current log without the group in flight. */
  function MemBatches(s: State): seq<Batch>
    requires s.logFile in s.disk.logs
  {
    var log := s.disk.logs[s.logFile];
    if Logged(s.group) != [] && log != [] then log[..|log| - 1] else log
  }

  /** The logs hold the memtables. */
  ghost predicate LogsOK(s: State)
  {
    && s.logFile in s.disk.logs && s.logFile < s.db.nextNumber
    && (forall n :: n in s.disk.logs ==> n <= s.logNumber || n == s.logFile)
    && (if s.db.imm.Some? then s.logNumber < s.logFile && s.logNumber in s.disk.logs else s.logNumber == s.logFile)
    && s.disk.logs[s.logFile] == MemBatches(s) + Logged(s.group)
    && Elements(s.db.mem) == Union(MemBatches(s)) && ImmEntries(s.db.imm) == Union(ImmBatches(s))
    && InOrder(ImmBatches(s) + MemBatches(s)) && Numbered(ImmBatches(s) + MemBatches(s), s.db.lastSequence)
    && (s.group.Some? ==> s.group.value.batch.first == s.db.lastSequence + 1)
  }

  ghost predicate Numbered(bs: seq<Batch>, last: SequenceNumber) {
    forall b :: b in bs ==> 0 < b.first && b.Next() <= last + 1
  }

  /** A manifest record describes a version, and its counters are high enough. */
  ghost predicate Describes(m: Manifest, version: Version, logNumber: nat, db: Db) {
    && m.version == version && m.logNumber == logNumber < m.nextFile <= db.nextNumber
    && NumbersBelow(version, m.nextFile) && SequencesBelow(VersionEntries(version), m.lastSequence + 1)
    && m.lastSequence <= db.lastSequence
  }

  ghost predicate ManifestOK(s: State)
  {
    && (if s.bg.Editing? && s.bg.durable then s.disk.manifest == s.bg.record
        else Describes(s.disk.manifest, s.db.current, s.logNumber, s.db))
    && (s.bg.Editing? ==>
          && Describes(s.bg.record, s.bg.record.version, if s.bg.flush then s.logFile else s.logNumber, s.db)
          && if s.bg.flush then FlushMemTable(s.db, Edited(s.db, s.bg)) else CompactionInstalls(s.db, Edited(s.db, s.bg)))
    && (s.bg.Building? ==> s.db.imm.Some? && NumbersBelow(s.db.current, s.bg.number) && s.bg.number < s.db.nextNumber)
  }

  /** Every batch of the history is in a live log, or the manifest's last sequence number covers it. */
  ghost predicate Remembered(history: seq<Batch>, last: SequenceNumber, live: seq<Batch>) {
    forall b :: b in history ==> b.Next() <= last + 1 || b in live
  }

  /** The entries read like the history, for every reader at or above `from`. */
  ghost predicate ReadsLike(s: set<Entry>, history: seq<Batch>, from: SequenceNumber) {
    forall user, snap: nat :: from <= snap ==> Read(s, user, snap) == Read(Union(history), user, snap)
  }

  ghost predicate HistoryOK(s: State)
    requires s.logFile in s.disk.logs
  {
    && InOrder(s.history) && Numbered(s.history, s.db.lastSequence)
    && Remembered(s.history, s.disk.manifest.lastSequence, if s.bg.Editing? && s.bg.durable && s.bg.flush then MemBatches(s) else ImmBatches(s) + MemBatches(s))
    && (s.bg.Editing? ==>
          Remembered(s.history, s.bg.record.lastSequence, if s.bg.flush then MemBatches(s) else ImmBatches(s) + MemBatches(s)))
    && ReadsLike(All(s.db), s.history, Oldest(s.db))
  }

  ghost predicate StateInv(s: State) {
    Inv(s.db) && LogsOK(s) && ManifestOK(s) && HistoryOK(s)
  }

  ghost predicate DownInv(d: Disk, history: seq<Batch>) {
    && DiskOK(d) && InOrder(history) && (forall b :: b in history ==> 0 < b.first)
    && Remembered(history, d.manifest.lastSequence, Live(d))
    && ReadsLike(Durable(d), history, Highest(d.manifest.lastSequence, Live(d)))
  }

  ghost predicate SysInv(s: Sys) {
    match s
    case Running(state) => StateInv(state)
    case Down(d, history) => DownInv(d, history)
  }

  // ---- Reading like the history

  /** Beyond the largest sequence number, all readers see the same. */
  lemma SameAbove(s: set<Entry>, user: UserKey, snap: SequenceNumber, later: SequenceNumber)
    requires UniqueSequence(s) && SequencesBelow(s, snap + 1) && snap <= later
    ensures Read(s, user, snap) == Read(s, user, later)
  {
    NothingOrNewest(s, user, snap);
    if e :| Newest(s, user, snap, e) {
      assert Newest(s, user, later, e);
      ReadOfNewest(s, user, snap, e);
      ReadOfNewest(s, user, later, e);
    } else {
      forall x | x in s
        ensures x.key.user != user
      {
      }
      ReadOfNothing(s, user, snap);
      ReadOfNothing(s, user, later);
    }
  }

  lemma HistoryBelow(history: seq<Batch>, last: SequenceNumber)
    requires forall b :: b in history ==> b.Next() <= last + 1
    ensures SequencesBelow(Union(history), last + 1)
  {
  }

  lemma ReadsLikeFrom(s: set<Entry>, history: seq<Batch>, from: SequenceNumber, top: SequenceNumber)
    requires UniqueSequence(s) && InOrder(history) && ReadsLike(s, history, from)
    requires SequencesBelow(s, top + 1) && forall b :: b in history ==> b.Next() <= top + 1
    ensures ReadsLike(s, history, top)
  {
    HistoryBelow(history, top);
    UnionIsUnique(history);
    forall user, snap: nat | top <= snap
      ensures Read(s, user, snap) == Read(Union(history), user, snap)
    {
      var later := if snap < from then from else snap;
      SameAbove(s, user, snap, later);
      SameAbove(Union(history), user, snap, later);
    }
  }

  /** A newer batch on both sides. */
  lemma ReadsLikeAppend(s: set<Entry>, history: seq<Batch>, batch: Batch, from: SequenceNumber)
    requires UniqueSequence(s) && SequencesBelow(s, batch.first) && ReadsLike(s, history, from)
    requires InOrder(history + [batch])
    ensures ReadsLike(s + Entries(batch), history + [batch], from)
  {
    var newer := Entries(batch);
    UnionOne(batch);
    UnionIsUnique([batch]);
    UnionAppend(history, [batch]);
    InOrderParts(history, [batch]);
    UnionIsUnique(history);
    assert batch in [batch];
    assert s + newer == newer + s && Union(history) + newer == newer + Union(history);
    forall user, snap: nat | from <= snap
      ensures Read(s + newer, user, snap) == Read(Union(history + [batch]), user, snap)
    {
      ReadOfTwoParts(newer, s, user, snap);
      ReadOfTwoParts(newer, Union(history), user, snap);
    }
  }

  lemma AllIsUnique(db: Db)
    requires Inv(db)
    ensures UniqueSequence(All(db))
  {
    MemoryIsUnique(db);
    VersionIsUnique(db.current);
    UniqueUnion(Memory(db), VersionEntries(db.current));
  }

  // ---- Steps of the writer

  lemma InOrderAppend(history: seq<Batch>, batch: Batch)
    requires InOrder(history) && forall b :: b in history ==> b.Next() <= batch.first
    ensures InOrder(history + [batch])
  {
    InOrderParts(history, [batch]);
  }

  /** What a pending edit does to the store does not depend on the writer. */
  lemma EditStillApplies(db: Db, db': Db, bg: Background)
    requires bg.Editing? && db'.current == db.current && db'.job == db.job && db.nextNumber <= db'.nextNumber
    requires bg.flush ==> db'.imm == db.imm
    requires if bg.flush then FlushMemTable(db, Edited(db, bg)) else CompactionInstalls(db, Edited(db, bg))
    ensures if bg.flush then FlushMemTable(db', Edited(db', bg)) else CompactionInstalls(db', Edited(db', bg))
  {
    if !bg.flush {
      if InstallCompaction(db, Edited(db, bg)) {
        assert InstallCompaction(db', Edited(db', bg));
      } else {
        assert TrivialMove(db', Edited(db', bg));
      }
    }
  }

  lemma ManifestStays(s: State, s': State)
    requires ManifestOK(s) && s'.disk.manifest == s.disk.manifest && s'.bg == s.bg && s'.logNumber == s.logNumber
    requires s'.db.current == s.db.current && s'.db.job == s.db.job
    requires s.db.nextNumber <= s'.db.nextNumber && s.db.lastSequence <= s'.db.lastSequence
    requires s.db.imm.Some? ==> s'.db.imm == s.db.imm && s'.logFile == s.logFile
    ensures ManifestOK(s')
  {
    if s.bg.Editing? {
      EditStillApplies(s.db, s'.db, s.bg);
    }
  }

  lemma BeginGroupStep(s: State, s': State)
    requires StateInv(s) && BeginGroup(s, s')
    ensures StateInv(s')
  {
  }

  lemma LogGroupStep(s: State, s': State)
    requires StateInv(s) && LogGroup(s, s')
    ensures StateInv(s')
  {
    var batch := s.group.value.batch;
    var log := s.disk.logs[s.logFile];
    assert (log + [batch])[..|log|] == log;
    assert MemBatches(s') == MemBatches(s) && ImmBatches(s') == ImmBatches(s);
  }

  lemma CommitGroupStep(s: State, s': State)
    requires StateInv(s) && CommitGroup(s, s')
    ensures StateInv(s')
  {
    var batch := s.group.value.batch;
    CommittedStore(s.db, s'.db, batch);
    assert MemBatches(s') == MemBatches(s) + [batch] && ImmBatches(s') == ImmBatches(s);
    CommittedLogs(s, s');
    ManifestStays(s, s');
    CommittedHistory(s, s');
  }

  lemma CommittedStore(db: Db, db': Db, batch: Batch)
    requires Inv(db) && db' == db.(mem := db'.mem, lastSequence := db.lastSequence + |batch.updates|)
    requires batch.first == db.lastSequence + 1 && Sorted(db'.mem) && Elements(db'.mem) == Elements(db.mem) + Entries(batch)
    ensures Inv(db')
  {
    forall e | e in db.mem
      ensures e in db'.mem
    {
      assert e in Elements(db'.mem);
    }
    forall e | e in db'.mem
      ensures e in db.mem || db.lastSequence < e.key.sequence <= db'.lastSequence
    {
      assert e in Elements(db'.mem);
    }
    WriteStep(db, db', 0);
  }

  lemma CommittedLogs(s: State, s': State)
    requires StateInv(s) && CommitGroup(s, s')
    requires MemBatches(s') == MemBatches(s) + [s.group.value.batch] && ImmBatches(s') == ImmBatches(s)
    ensures LogsOK(s')
  {
    var batch := s.group.value.batch;
    UnionAppend(MemBatches(s), [batch]);
    UnionOne(batch);
    AppendNumbered(ImmBatches(s), MemBatches(s), batch, s.db.lastSequence);
    assert Logged(s'.group) == [];
    assert s'.disk.logs[s'.logFile] == MemBatches(s') + Logged(s'.group);
  }

  lemma AppendNumbered(a: seq<Batch>, b: seq<Batch>, batch: Batch, last: SequenceNumber)
    requires InOrder(a + b) && Numbered(a + b, last) && batch.first == last + 1
    ensures InOrder(a + (b + [batch])) && Numbered(a + (b + [batch]), last + |batch.updates|)
  {
    InOrderAppend(a + b, batch);
    assert a + (b + [batch]) == (a + b) + [batch];
  }

  lemma CommittedHistory(s: State, s': State)
    requires StateInv(s) && CommitGroup(s, s')
    requires MemBatches(s') == MemBatches(s) + [s.group.value.batch] && ImmBatches(s') == ImmBatches(s)
    ensures HistoryOK(s')
  {
    var batch := s.group.value.batch;
    InOrderAppend(s.history, batch);
    AllIsUnique(s.db);
    assert batch in MemBatches(s');
    ReadsLikeAppend(All(s.db), s.history, batch, Oldest(s.db));
    assert All(s'.db) == All(s.db) + Entries(batch);
    assert Oldest(s.db) <= Oldest(s'.db);
  }

  lemma FailGroupStep(s: State, s': State)
    requires StateInv(s) && FailGroup(s, s')
    ensures StateInv(s')
  {
    WriteStep(s.db, s'.db, 0);
    assert MemBatches(s') == MemBatches(s) && ImmBatches(s') == ImmBatches(s);
    ManifestStays(s, s');
    assert All(s'.db) == All(s.db);
  }

  lemma SwitchStepKeeps(s: State, s': State)
    requires StateInv(s) && Switch(s, s')
    ensures StateInv(s')
  {
    SwitchStep(s.db, s'.db, 0);
    assert ImmBatches(s) == [] && MemBatches(s') == [] && ImmBatches(s') == MemBatches(s);
    assert [] + MemBatches(s) == MemBatches(s) + [];
    ManifestStays(s, s');
    assert All(s'.db) == All(s.db);
  }

  // ---- Steps of the background thread

  lemma StartTableStep(s: State, s': State)
    requires StateInv(s) && StartTable(s, s')
    ensures StateInv(s')
  {
    SnapshotStep(s.db, s'.db, 0);
    assert MemBatches(s') == MemBatches(s) && ImmBatches(s') == ImmBatches(s);
    assert All(s'.db) == All(s.db);
  }

  lemma BeginFlushEditStep(s: State, s': State)
    requires StateInv(s) && BeginFlushEdit(s, s')
    ensures StateInv(s')
  {
    assert MemBatches(s') == MemBatches(s) && ImmBatches(s') == ImmBatches(s);
    var db' := Edited(s.db, s'.bg);
    FlushApplies(s.db, s.bg.number, db');
    FlushStep(s.db, db', 0);
    NewVersionDescribed(s.db, db');
    assert Remembered(s.history, s.db.lastSequence, MemBatches(s));
  }

  lemma FlushApplies(db: Db, number: nat, db': Db)
    requires Inv(db) && TableAdded(db, number, db'.current) && NumbersBelow(db.current, number) && number < db.nextNumber
    requires db' == db.(imm := None, current := db'.current)
    ensures FlushMemTable(db, db')
  {
  }

  lemma NewVersionDescribed(db: Db, db': Db)
    requires Inv(db') && db'.nextNumber == db.nextNumber && db'.lastSequence == db.lastSequence
    ensures NumbersBelow(db'.current, db.nextNumber) && SequencesBelow(VersionEntries(db'.current), db.lastSequence + 1)
  {
    forall e | e in VersionEntries(db'.current)
      ensures e.key.sequence < db.lastSequence + 1
    {
      assert e in All(db');
    }
  }

  lemma BeginCompactionEditStep(s: State, s': State)
    requires StateInv(s) && BeginCompactionEdit(s, s')
    ensures StateInv(s')
  {
    assert MemBatches(s') == MemBatches(s) && ImmBatches(s') == ImmBatches(s);
    var db' := Edited(s.db, s'.bg);
    StepKeepsInv(s.db, db');
    NewVersionDescribed(s.db, db');
  }

  lemma WriteEditStep(s: State, s': State)
    requires StateInv(s) && WriteEdit(s, s')
    ensures StateInv(s')
  {
    assert MemBatches(s') == MemBatches(s) && ImmBatches(s') == ImmBatches(s);
  }

  lemma EditedStore(s: State)
    requires StateInv(s) && s.bg.Editing?
    ensures Inv(Edited(s.db, s.bg)) && Oldest(Edited(s.db, s.bg)) == Oldest(s.db)
    ensures FaithfulEdit(s) ==> ReadsLike(All(Edited(s.db, s.bg)), s.history, Oldest(s.db))
  {
    var db' := Edited(s.db, s.bg);
    StepKeepsInv(s.db, db');
    if FaithfulEdit(s) {
      forall user, snap: nat | Oldest(s.db) <= snap
        ensures Read(All(db'), user, snap) == Read(Union(s.history), user, snap)
      {
        EditKeepsReads(s.db, db', snap);
        assert ReadsAgree(s.db, db', snap);
      }
    }
  }

  lemma EditKeepsReads(db: Db, db': Db, snap: SequenceNumber)
    requires Inv(db) && Oldest(db) <= snap
    requires FlushMemTable(db, db') || TrivialMove(db, db') || (InstallCompaction(db, db') && Faithful(db, db'))
    ensures ReadsAgree(db, db', snap)
  {
    if FlushMemTable(db, db') {
      FlushStep(db, db', snap);
    } else if TrivialMove(db, db') {
      MoveStep(db, db', snap);
    } else {
      InstallStep(db, db', snap);
    }
  }

  lemma InstallEditStep(s: State, s': State)
    requires StateInv(s) && InstallEdit(s, s') && FaithfulEdit(s)
    ensures StateInv(s')
  {
    EditedStore(s);
    assert MemBatches(s') == MemBatches(s);
    if s.bg.flush {
      assert ImmBatches(s') == [];
      InOrderParts(ImmBatches(s), MemBatches(s));
      assert [] + MemBatches(s) == MemBatches(s);
    } else {
      assert ImmBatches(s') == ImmBatches(s);
    }
  }

  lemma OtherStep(s: State, s': State)
    requires StateInv(s) && Other(s, s')
    ensures StateInv(s')
  {
    StepKeepsInv(s.db, s'.db);
    assert MemBatches(s') == MemBatches(s) && ImmBatches(s') == ImmBatches(s);
    assert All(s'.db) == All(s.db);
    if ReleaseSnapshot(s.db, s'.db) {
      var i :| 0 <= i < |s.db.snapshots| && s'.db == s.db.(snapshots := s.db.snapshots[..i] + s.db.snapshots[i + 1..]);
      ReleaseKeepsOrder(s.db, s'.db, i);
    }
    assert Oldest(s.db) <= Oldest(s'.db);
    if s.bg.Idle? {
    } else {
      ManifestStays(s, s');
    }
  }

  lemma RemoveLogsStep(s: State, s': State)
    requires StateInv(s) && RemoveLogs(s, s')
    ensures StateInv(s')
  {
    assert MemBatches(s') == MemBatches(s) && ImmBatches(s') == ImmBatches(s);
  }

  // ---- Crashes

  /** The store as the manifest on disk knows it. */
  function OnDisk(s: State): Db {
    if s.bg.Editing? && s.bg.durable then Edited(s.db, s.bg) else s.db
  }

  function OnDiskBatches(s: State): seq<Batch>
    requires s.logFile in s.disk.logs
  {
    if s.bg.Editing? && s.bg.durable && s.bg.flush then MemBatches(s) else ImmBatches(s) + MemBatches(s)
  }

  /** The disk holds the store `db`: its version in the manifest, its memtables in the live logs, and
      perhaps a group in flight. */
  ghost predicate Holds(d: Disk, db: Db, batches: seq<Batch>, logged: seq<Batch>) {
    && Inv(db) && Describes(d.manifest, db.current, d.manifest.logNumber, db) && Live(d) == batches + logged
    && Memory(db) == Union(batches) && InOrder(batches) && Numbered(batches, db.lastSequence)
    && AtMostOne(logged, db.lastSequence)
  }

  ghost predicate AtMostOne(logged: seq<Batch>, last: SequenceNumber) {
    logged == [] || exists b: Batch :: logged == [b] && b.first == last + 1
  }

  lemma ThenLogged(batches: seq<Batch>, logged: seq<Batch>, last: SequenceNumber)
    requires InOrder(batches) && Numbered(batches, last) && AtMostOne(logged, last)
    ensures InOrder(batches + logged) && forall b :: b in batches + logged ==> 0 < b.first
    ensures Union(batches + logged) == Union(batches) + Union(logged)
    ensures forall e :: e in Union(logged) ==> e.key.sequence > last
  {
    UnionAppend(batches, logged);
    InOrderParts(batches, logged);
  }

  lemma OnDiskMemory(s: State)
    requires StateInv(s)
    ensures Memory(OnDisk(s)) == Union(OnDiskBatches(s))
    ensures InOrder(OnDiskBatches(s)) && Numbered(OnDiskBatches(s), s.db.lastSequence)
  {
    UnionAppend(ImmBatches(s), MemBatches(s));
    InOrderParts(ImmBatches(s), MemBatches(s));
    assert forall b :: b in MemBatches(s) ==> b in ImmBatches(s) + MemBatches(s);
  }

  lemma OnDiskStore(s: State)
    requires StateInv(s)
    ensures Holds(s.disk, OnDisk(s), OnDiskBatches(s), Logged(s.group))
    ensures FaithfulEdit(s) ==> ReadsLike(All(OnDisk(s)), s.history, Oldest(s.db))
  {
    OnDiskMemory(s);
    LiveNow(s);
    if s.bg.Editing? {
      EditedStore(s);
    }
  }

  /** What recovery would replay now. */
  lemma LiveNow(s: State)
    requires StateInv(s)
    ensures Live(s.disk) == OnDiskBatches(s) + Logged(s.group)
  {
    if s.disk.manifest.logNumber < s.logFile {
      LiveTwoLogs(s.disk, s.disk.manifest.logNumber, s.logFile);
      Assoc(ImmBatches(s), MemBatches(s), Logged(s.group));
    } else {
      LiveOneLog(s.disk, s.logFile);
      assert [] + MemBatches(s) == MemBatches(s);
    }
  }

  lemma HeldEntries(d: Disk, db: Db, batches: seq<Batch>, logged: seq<Batch>)
    requires Holds(d, db, batches, logged)
    ensures InOrder(Live(d)) && forall b :: b in Live(d) ==> 0 < b.first
    ensures Union(Live(d)) == Memory(db) + Union(logged) && Durable(d) == All(db) + Union(logged)
    ensures forall e :: e in Union(logged) ==> e.key.sequence > db.lastSequence
  {
    ThenLogged(batches, logged, db.lastSequence);
  }

  lemma CrashedDisk(d: Disk, db: Db, batches: seq<Batch>, logged: seq<Batch>)
    requires Holds(d, db, batches, logged)
    ensures DiskOK(d)
  {
    HeldEntries(d, db, batches, logged);
    MemoryIsUnique(db);
    forall x, y | x in Union(Live(d)) && y in VersionEntries(d.manifest.version) && x.key.user == y.key.user
      ensures x.key.sequence > y.key.sequence
    {
      assert y in All(db);
    }
  }

  /** The replayed logs and the manifest together know the largest sequence number. */
  lemma HighestCovers(d: Disk, history: seq<Batch>)
    requires DiskOK(d) && Remembered(history, d.manifest.lastSequence, Live(d))
    ensures var top := Highest(d.manifest.lastSequence, Live(d));
      SequencesBelow(Durable(d), top + 1) && forall b :: b in history ==> b.Next() <= top + 1
  {
    HistoryBelow(Live(d), Highest(d.manifest.lastSequence, Live(d)));
  }

  lemma DurableIsUnique(d: Disk)
    requires DiskOK(d)
    ensures UniqueSequence(Durable(d))
  {
    VersionIsUnique(d.manifest.version);
    UnionIsUnique(Live(d));
    UniqueUnion(Union(Live(d)), VersionEntries(d.manifest.version));
    assert Durable(d) == Union(Live(d)) + VersionEntries(d.manifest.version);
  }

  lemma ReadsLikeThenLogged(db: Db, logged: seq<Batch>, history: seq<Batch>, from: SequenceNumber)
    requires Inv(db) && ReadsLike(All(db), history, from) && InOrder(history + logged) && AtMostOne(logged, db.lastSequence)
    ensures ReadsLike(All(db) + Union(logged), history + logged, from)
  {
    if logged == [] {
      assert history + logged == history && All(db) + Union(logged) == All(db);
    } else {
      var b :| logged == [b] && b.first == db.lastSequence + 1;
      UnionOne(b);
      AllIsUnique(db);
      ReadsLikeAppend(All(db), history, b, from);
    }
  }

  lemma CrashedReads(d: Disk, db: Db, batches: seq<Batch>, logged: seq<Batch>, history: seq<Batch>, from: SequenceNumber)
    requires Holds(d, db, batches, logged) && DiskOK(d) && ReadsLike(All(db), history, from)
    requires InOrder(history + logged)
    requires Remembered(history + logged, d.manifest.lastSequence, Live(d))
    ensures ReadsLike(Durable(d), history + logged, Highest(d.manifest.lastSequence, Live(d)))
  {
    HeldEntries(d, db, batches, logged);
    ReadsLikeThenLogged(db, logged, history, from);
    HighestCovers(d, history + logged);
    DurableIsUnique(d);
    ReadsLikeFrom(Durable(d), history + logged, from, Highest(d.manifest.lastSequence, Live(d)));
  }

  lemma CrashedHistory(s: State)
    requires StateInv(s)
    ensures Remembered(s.history + Logged(s.group), s.disk.manifest.lastSequence, Live(s.disk))
    ensures forall b :: b in s.history + Logged(s.group) ==> 0 < b.first
  {
    LiveNow(s);
  }

  /** Nothing acknowledged is lost in a crash, and at most the group in flight is added. */
  lemma CrashStep(s: State)
    requires StateInv(s) && FaithfulEdit(s)
    ensures DownInv(s.disk, s.history + Logged(s.group))
  {
    OnDiskStore(s);
    CrashedHistory(s);
    ThenLogged(s.history, Logged(s.group), s.db.lastSequence);
    CrashedDisk(s.disk, OnDisk(s), OnDiskBatches(s), Logged(s.group));
    CrashedReads(s.disk, OnDisk(s), OnDiskBatches(s), Logged(s.group), s.history, Oldest(s.db));
  }

  // ---- Opening

  lemma EmptyLogAddsNothing(d: Disk, n: nat)
    requires AboveLogs(d, n)
    ensures Live(d.(logs := d.logs[n := []])) == Live(d)
  {
    var d' := d.(logs := d.logs[n := []]);
    LiveUpTo(d, n + 1);
    LiveUpTo(d', n + 1);
    RecordsAgree(d.logs, d'.logs, d.manifest.logNumber, n + 1);
  }

  lemma CreateLogStep(d: Disk, d': Disk, history: seq<Batch>)
    requires DownInv(d, history) && CreateLog(d, d')
    ensures DownInv(d', history)
  {
    var n: nat :| AboveLogs(d, n) && d' == d.(logs := d.logs[n := []]);
    EmptyLogAddsNothing(d, n);
  }

  lemma OpenStep(d: Disk, history: seq<Batch>, s': State)
    requires DownInv(d, history) && Open(d, history, s')
    ensures StateInv(s')
  {
    var tables: seq<File>, next: nat, w: Version :| OpensWith(d, history, tables, next, w, s');
    RecoveredVersion(d, tables, next, w);
    HighestCovers(d, history);
    OpenedStore(s'.db, w, next + 1);
    assert All(s'.db) == Durable(d);
    assert MemBatches(s') == [] && ImmBatches(s') == [];
    assert s'.disk.logs[s'.logFile] == [] && Union([]) == {} && ImmEntries(None) == {};
  }

  lemma OpenedStore(db: Db, w: Version, next: nat)
    requires db == Db([], None, w, db.lastSequence, [], next, None)
    requires VersionOK(w) && SequencesBelow(VersionEntries(w), db.lastSequence + 1) && NumbersBelow(w, next)
    ensures Inv(db) && All(db) == VersionEntries(w)
  {
    assert All(db) == VersionEntries(w);
  }

  // ---- Runs

  ghost predicate Run(run: seq<Sys>) {
    && run != [] && Init(run[0])
    && (forall i :: 0 < i < |run| ==> SysStep(run[i - 1], run[i]))
    && (forall i :: 0 <= i < |run| && run[i].Running? ==> FaithfulEdit(run[i].state))
  }

  lemma InitKeepsSysInv(s: Sys)
    requires Init(s)
    ensures SysInv(s)
  {
    var d := s.disk;
    EmptyVersion(d.manifest.version);
    RecordsEmpty(d.logs, 0, Above(d.logs.Keys));
    assert Union([]) == {} && Durable(d) == {};
  }

  lemma StepKeepsStateInv(s: State, s': State)
    requires StateInv(s) && Step(s, s') && FaithfulEdit(s)
    ensures StateInv(s')
  {
    if BeginGroup(s, s') {
      BeginGroupStep(s, s');
    } else if LogGroup(s, s') {
      LogGroupStep(s, s');
    } else if CommitGroup(s, s') {
      CommitGroupStep(s, s');
    } else if FailGroup(s, s') {
      FailGroupStep(s, s');
    } else if Switch(s, s') {
      SwitchStepKeeps(s, s');
    } else if StartTable(s, s') {
      StartTableStep(s, s');
    } else if BeginFlushEdit(s, s') {
      BeginFlushEditStep(s, s');
    } else if BeginCompactionEdit(s, s') {
      BeginCompactionEditStep(s, s');
    } else if WriteEdit(s, s') {
      WriteEditStep(s, s');
    } else if InstallEdit(s, s') {
      InstallEditStep(s, s');
    } else if Other(s, s') {
      OtherStep(s, s');
    } else {
      RemoveLogsStep(s, s');
    }
  }

  lemma {:induction false} ReachableSysInv(run: seq<Sys>, i: nat)
    requires Run(run) && i < |run|
    ensures SysInv(run[i])
  {
    if i == 0 {
      InitKeepsSysInv(run[0]);
    } else {
      ReachableSysInv(run, i - 1);
      match run[i - 1]
      case Running(s) =>
        if Crash(s, run[i]) {
          CrashStep(s);
        } else {
          StepKeepsStateInv(s, run[i].state);
        }
      case Down(d, history) =>
        if run[i].Running? {
          OpenStep(d, history, run[i].state);
        } else {
          CreateLogStep(d, run[i].disk, history);
        }
    }
  }

  ghost function History(s: Sys): seq<Batch> {
    match s
    case Running(state) => state.history
    case Down(_, history) => history
  }

  /** The history only grows: a batch once acknowledged stays in it through all crashes. */
  lemma {:induction false} HistoryGrows(run: seq<Sys>, i: nat, j: nat)
    requires Run(run) && i <= j < |run|
    ensures History(run[i]) <= History(run[j])
  {
    if i < j {
      HistoryGrows(run, i, j - 1);
      HistoryStep(run[j - 1], run[j]);
    }
  }

  lemma HistoryStep(s: Sys, s': Sys)
    requires SysStep(s, s')
    ensures History(s) <= History(s')
  {
    if s.Running? && s'.Running? {
      assert Step(s.state, s'.state);
    }
  }

  /** Crash recovery loses nothing acknowledged: in every reachable running state, however many
      crashes came before, a read at or above the oldest snapshot is the read of all batches
      ever acknowledged, and the last sequence number is no smaller than theirs. */
  lemma EveryReadIsOfTheHistory(run: seq<Sys>, i: nat, user: UserKey, snap: SequenceNumber)
    requires Run(run) && i < |run| && run[i].Running? && Oldest(run[i].state.db) <= snap
    ensures Read(All(run[i].state.db), user, snap) == Read(Union(History(run[i])), user, snap)
    ensures forall b :: b in History(run[i]) ==> b.Next() <= run[i].state.db.lastSequence + 1
  {
    ReachableSysInv(run, i);
  }
}
