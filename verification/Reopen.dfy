/** Opening a store whose files a crash left behind (DBImpl::Recover, DB::Open, db/db_impl.cc). */
module Reopen {
  import opened DbFormat
  import opened Versions
  import opened Lookup
  import opened Preserve
  import opened Flush
  import opened Store
  import opened Recovery
  import opened Builder
  import E = Edits
  import opened Durability

  /** The tables of the replayed logs are new files of level 0. */
  lemma TablesAreNew(d: Disk, tables: seq<File>, next: nat)
    requires DiskOK(d) && TablesHold(tables, Union(Live(d)), d.manifest.nextFile + 1, next)
    ensures E.NewFiles(d.manifest.version, E.RecoveryEdit(tables))
  {
    var edit := E.RecoveryEdit(tables);
    forall a, f | a in edit.added && f in d.manifest.version[a.0]
      ensures f.number != a.1.number
    {
      assert a.1 in tables && f.number < d.manifest.nextFile;
    }
  }

  /** DB::Open: the logs are replayed, the edit of their tables is applied, and a new log is begun. Whatever a
      crash left is opened, in a step of the machine. */
  method OpenStore(sizes: Sizes, d: Disk, listing: seq<nat>, history: seq<Batch>) returns (s: State)
    requires DownInv(d, history) && E.Ready(d.manifest.version)
    requires forall n :: n in listing <==> n in d.logs
    requires forall i, j :: 0 <= i < j < |listing| ==> listing[i] != listing[j]
    ensures Open(d, history, s) && StateInv(s) && E.Ready(s.db.current)
    ensures forall user, snap: nat :: s.db.lastSequence <= snap ==> Read(All(s.db), user, snap) == Read(Union(history), user, snap)
  {
    hide StateInv, ReadsLike, Joined, E.Edited, TablesHold;
    var tables, next, last := Recover(sizes, d, listing);
    TablesAreNew(d, tables, next);
    var w := E.ApplyEdit(d.manifest.version, E.RecoveryEdit(tables));
    E.RecoveryEditJoins(d.manifest.version, tables, w);
    s := State(Db([], None, w, last, [], next + 1, None), Disk(Manifest(w, next, next + 1, last), d.logs[next := []]),
               next, next, None, Idle, history);
    assert OpensWith(d, history, tables, next, w, s);
    OpenStep(d, history, s);
    OpenReads(s);
  }

  /** Without snapshots every read from the last sequence number on is of the history. */
  lemma OpenReads(s: State)
    requires StateInv(s) && s.db.snapshots == []
    ensures forall user, snap: nat :: s.db.lastSequence <= snap ==> Read(All(s.db), user, snap) == Read(Union(s.history), user, snap)
  {
    assert HistoryOK(s) && Oldest(s.db) == s.db.lastSequence;
  }
}
