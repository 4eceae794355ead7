/** Opening a store after a crash: the manifest names a version and a log number, and all logs
    from that number on are replayed into tables of level 0 (db/db_impl.cc, db/version_set.cc). */
module Recovery {
  import opened DbFormat
  import opened Versions
  import opened Lookup
  import opened Preserve
  import opened Store

  // ---- Batches

  datatype Update = Update(kind: ValueType, user: UserKey, value: Value)

  /** A group of writes as one log record holds it: its first sequence number and its updates. */
  datatype Batch = Batch(first: SequenceNumber, updates: seq<Update>) {
    function Next(): SequenceNumber { first + |updates| }

    function EntryAt(i: nat): Entry
      requires i < |updates|
    {
      Entry(InternalKey(updates[i].user, first + i, updates[i].kind), updates[i].value)
    }
  }

  ghost predicate IsEntryOf(b: Batch, e: Entry) {
    b.first <= e.key.sequence < b.Next() && e == b.EntryAt(e.key.sequence - b.first)
  }

  function EntriesUpTo(b: Batch, n: nat): (s: set<Entry>)
    requires n <= |b.updates|
    ensures forall e :: e in s <==> IsEntryOf(b, e) && e.key.sequence < b.first + n
  {
    set i: nat | i < n :: b.EntryAt(i)
  }

  function Entries(b: Batch): (s: set<Entry>)
    ensures forall e :: e in s <==> IsEntryOf(b, e)
  {
    EntriesUpTo(b, |b.updates|)
  }

  function Union(bs: seq<Batch>): set<Entry> {
    set b, e | b in bs && e in Entries(b) :: e
  }

  lemma UnionAppend(a: seq<Batch>, b: seq<Batch>)
    ensures Union(a + b) == Union(a) + Union(b)
  {
    forall e
      ensures e in Union(a + b) <==> e in Union(a) + Union(b)
    {
      if e in Union(a) {
        var x :| x in a && e in Entries(x);
        assert x in a + b;
      } else if e in Union(b) {
        var x :| x in b && e in Entries(x);
        assert x in a + b;
      }
    }
  }

  lemma UnionOne(b: Batch)
    ensures Union([b]) == Entries(b)
  {
    assert b in [b];
  }

  /** Each batch takes sequence numbers above those of the batches before it. */
  ghost predicate InOrder(bs: seq<Batch>) {
    forall i, j :: 0 <= i < j < |bs| ==> bs[i].Next() <= bs[j].first
  }

  lemma InOrderParts(a: seq<Batch>, b: seq<Batch>)
    ensures InOrder(a + b) <==>
      InOrder(a) && InOrder(b) && forall x, y :: x in a && y in b ==> x.Next() <= y.first
  {
    var c := a + b;
    if InOrder(c) {
      forall i, j | 0 <= i < j < |a| ensures a[i].Next() <= a[j].first { assert c[i] == a[i] && c[j] == a[j]; }
      forall i, j | 0 <= i < j < |b| ensures b[i].Next() <= b[j].first {
        assert c[|a| + i] == b[i] && c[|a| + j] == b[j];
      }
      forall x, y | x in a && y in b ensures x.Next() <= y.first {
        var i :| 0 <= i < |a| && a[i] == x;
        var j :| 0 <= j < |b| && b[j] == y;
        assert c[i] == x && c[|a| + j] == y;
      }
    }
    if InOrder(a) && InOrder(b) && forall x, y :: x in a && y in b ==> x.Next() <= y.first {
      forall i, j | 0 <= i < j < |c| ensures c[i].Next() <= c[j].first {
        if i < |a| <= j {
          assert a[i] in a && b[j - |a|] in b;
        }
      }
    }
  }

  lemma UnionIsUnique(bs: seq<Batch>)
    requires InOrder(bs)
    ensures UniqueSequence(Union(bs))
  {
    forall x, y | x in Union(bs) && y in Union(bs) && x.key.sequence == y.key.sequence
      ensures x == y
    {
      var b :| b in bs && x in Entries(b);
      var c :| c in bs && y in Entries(c);
      var i :| 0 <= i < |bs| && bs[i] == b;
      var j :| 0 <= j < |bs| && bs[j] == c;
      assert !(i < j) && !(j < i);
    }
  }

  // ---- The memtable

  function Insert(mem: seq<Entry>, e: Entry): seq<Entry> {
    if mem == [] || Before(e.key, mem[0].key) then [e] + mem else [mem[0]] + Insert(mem[1..], e)
  }

  lemma {:induction false} InsertKeepsOrder(mem: seq<Entry>, e: Entry)
    requires Sorted(mem) && forall x :: x in mem ==> x.key.user != e.key.user || x.key.sequence != e.key.sequence
    ensures Sorted(Insert(mem, e)) && Elements(Insert(mem, e)) == Elements(mem) + {e}
  {
    if mem == [] || Before(e.key, mem[0].key) {
    } else {
      var rest := mem[1..];
      InsertKeepsOrder(rest, e);
      var r := Insert(rest, e);
      assert mem == [mem[0]] + rest;
      forall k | 0 <= k < |r|
        ensures Before(mem[0].key, r[k].key)
      {
        assert r[k] in Elements(r);
        if r[k] != e {
          var i :| 0 <= i < |rest| && rest[i] == r[k];
          assert mem[i + 1] == r[k];
        }
      }
      assert Elements([mem[0]] + r) == {mem[0]} + Elements(r);
      assert Elements(mem) == {mem[0]} + Elements(rest);
    }
  }

  ghost predicate SequencesBelow(s: set<Entry>, n: SequenceNumber) {
    forall e :: e in s ==> e.key.sequence < n
  }

  /** WriteBatchInternal::InsertInto: each update takes the next sequence number. */
  method InsertInto(b: Batch, mem: seq<Entry>) returns (r: seq<Entry>)
    requires Sorted(mem) && SequencesBelow(Elements(mem), b.first)
    ensures Sorted(r) && Elements(r) == Elements(mem) + Entries(b)
  {
    r := mem;
    var sequence := b.first;
    for i := 0 to |b.updates|
      invariant sequence == b.first + i
      invariant Sorted(r) && Elements(r) == Elements(mem) + EntriesUpTo(b, i)
    {
      var e := Entry(InternalKey(b.updates[i].user, sequence, b.updates[i].kind), b.updates[i].value);
      forall x | x in r
        ensures x.key.sequence != e.key.sequence
      {
        assert x in Elements(r);
      }
      InsertKeepsOrder(r, e);
      r := Insert(r, e);
      sequence := sequence + 1;
    }
  }

  // ---- What is on disk

  /** The latest state that the manifest describes. Replaying its edits builds this version
      (module Builder). */
  datatype Manifest = Manifest(version: Version, logNumber: nat, nextFile: nat, lastSequence: SequenceNumber)

  datatype Disk = Disk(manifest: Manifest, logs: map<nat, seq<Batch>>)

  /** The records of the logs numbered `from` to `to - 1`, in the order of the log numbers. */
  function Records(logs: map<nat, seq<Batch>>, from: nat, to: nat): seq<Batch>
    decreases if from < to then to - from else 0
  {
    if from >= to then [] else (if from in logs then logs[from] else []) + Records(logs, from + 1, to)
  }

  lemma {:induction false} RecordsSplit(logs: map<nat, seq<Batch>>, from: nat, mid: nat, to: nat)
    requires from <= mid <= to
    ensures Records(logs, from, to) == Records(logs, from, mid) + Records(logs, mid, to)
    decreases if from < to then to - from else 0
  {
    if from < mid {
      RecordsSplit(logs, from + 1, mid, to);
    }
  }

  /** Logs that are missing or empty add nothing, and other logs do not matter. */
  lemma {:induction false} RecordsAgree(logs: map<nat, seq<Batch>>, logs': map<nat, seq<Batch>>, from: nat, to: nat)
    requires forall n :: from <= n < to ==>
               (if n in logs then logs[n] else []) == (if n in logs' then logs'[n] else [])
    ensures Records(logs, from, to) == Records(logs', from, to)
    decreases if from < to then to - from else 0
  {
    if from < to {
      RecordsAgree(logs, logs', from + 1, to);
    }
  }

  lemma {:induction false} RecordsEmpty(logs: map<nat, seq<Batch>>, from: nat, to: nat)
    requires forall n :: from <= n < to && n in logs ==> logs[n] == []
    ensures Records(logs, from, to) == []
    decreases if from < to then to - from else 0
  {
    if from < to {
      RecordsEmpty(logs, from + 1, to);
    }
  }

  lemma RecordsOne(logs: map<nat, seq<Batch>>, n: nat)
    requires n in logs
    ensures Records(logs, n, n + 1) == logs[n]
  {
    assert Records(logs, n + 1, n + 1) == [];
  }

  /** A number above all file numbers of a set. */
  ghost function Above(s: set<nat>): (n: nat)
    ensures forall k :: k in s ==> k < n
  {
    if s == {} then 0
    else
      var k :| k in s;
      assert s == (s - {k}) + {k};
      var rest := Above(s - {k});
      if rest <= k then k + 1 else rest
  }

  /** What recovery replays: the logs from the manifest's log number on. */
  ghost function Live(d: Disk): seq<Batch> {
    Records(d.logs, d.manifest.logNumber, Above(d.logs.Keys))
  }

  lemma LiveUpTo(d: Disk, top: nat)
    requires forall n :: n in d.logs ==> n < top
    ensures Live(d) == Records(d.logs, d.manifest.logNumber, top)
  {
    var a, from := Above(d.logs.Keys), d.manifest.logNumber;
    var n := if a < top then a else top;
    if from <= n {
      RecordsSplit(d.logs, from, n, a);
      RecordsSplit(d.logs, from, n, top);
    }
    RecordsEmpty(d.logs, if from <= n then n else from, a);
    RecordsEmpty(d.logs, if from <= n then n else from, top);
  }

  lemma LiveOneLog(d: Disk, n: nat)
    requires n == d.manifest.logNumber && n in d.logs && forall k :: k in d.logs ==> k <= n
    ensures Live(d) == d.logs[n]
  {
    LiveUpTo(d, n + 1);
    RecordsOne(d.logs, n);
  }

  lemma LiveTwoLogs(d: Disk, m: nat, n: nat)
    requires m == d.manifest.logNumber < n && m in d.logs && n in d.logs
    requires forall k :: k in d.logs ==> k <= m || k == n
    ensures Live(d) == d.logs[m] + d.logs[n]
  {
    LiveUpTo(d, n + 1);
    RecordsOne(d.logs, m);
    SkipGap(d.logs, m, m + 1, n);
  }

  /** What a reader would find after a crash now. */
  ghost function Durable(d: Disk): set<Entry> {
    VersionEntries(d.manifest.version) + Union(Live(d))
  }

  ghost predicate DiskOK(d: Disk) {
    && VersionOK(d.manifest.version) && NumbersBelow(d.manifest.version, d.manifest.nextFile)
    && d.manifest.logNumber < d.manifest.nextFile
    && (forall b :: b in Live(d) ==> b.first > 0)
    && InOrder(Live(d)) && EntriesNewer(Union(Live(d)), VersionEntries(d.manifest.version))
    && SequencesBelow(VersionEntries(d.manifest.version), d.manifest.lastSequence + 1)
  }

  // ---- Tables made from logs

  /** Tables that hold exactly the batches, the older entries in the tables with smaller numbers,
      numbered from `lo` to `hi - 1`. */
  ghost predicate TablesHold(tables: seq<File>, entries: set<Entry>, lo: nat, hi: nat) {
    && AllWellFormed(tables) && FileEntries(tables) == entries
    && (forall f :: f in tables ==> lo <= f.number < hi)
    && (forall i, j :: 0 <= i < j < |tables| ==> tables[i].number < tables[j].number && OlderTable(tables[i], tables[j]))
  }

  ghost predicate OlderTable(f: File, g: File) {
    forall e, x :: e in f.entries && x in g.entries ==> e.key.sequence < x.key.sequence
  }

  /** What the size of a memtable or a table depends on. */
  datatype Sizes = Sizes(memoryFull: seq<Entry> -> bool, tableSize: seq<Entry> -> nat)

  /** WriteLevel0Table during recovery: an empty memtable takes a file number but adds no table. */
  method WriteLevel0Table(sizes: Sizes, mem: seq<Entry>, tables: seq<File>, next: nat, ghost entries: set<Entry>, ghost lo: nat)
    returns (tables': seq<File>, next': nat)
    requires Sorted(mem) && TablesHold(tables, entries, lo, next) && lo <= next
    requires forall e, x :: e in entries && x in mem ==> e.key.sequence < x.key.sequence
    ensures next' == next + 1 && TablesHold(tables', entries + Elements(mem), lo, next')
  {
    next' := next + 1;
    tables' := tables;
    if mem != [] {
      var f := File(next, sizes.tableSize(mem), mem[0].key, mem[|mem| - 1].key, mem);
      tables' := tables + [f];
      AddTable(tables, f, entries, lo, next);
    } else {
      assert entries + Elements(mem) == entries;
    }
  }

  lemma AddTable(tables: seq<File>, f: File, entries: set<Entry>, lo: nat, next: nat)
    requires WellFormed(f) && f.number == next && TablesHold(tables, entries, lo, next) && lo <= next
    requires forall e, x :: e in entries && x in f.entries ==> e.key.sequence < x.key.sequence
    ensures TablesHold(tables + [f], entries + Elements(f.entries), lo, next + 1)
  {
    var all := tables + [f];
    forall e
      ensures e in FileEntries(all) <==> e in entries + Elements(f.entries)
    {
      if e in f.entries {
        assert f in all;
      } else if e in entries {
        var t :| t in tables && e in t.entries;
        assert t in all;
      }
    }
    forall i, j | 0 <= i < j < |all|
      ensures all[i].number < all[j].number && OlderTable(all[i], all[j])
    {
      if j == |tables| {
        assert all[i] in tables;
        forall e, x | e in all[i].entries && x in f.entries
          ensures e.key.sequence < x.key.sequence
        {
          assert e in FileEntries(tables);
        }
      }
    }
  }

  /** The largest sequence number of the batches, if it is above `start`. */
  function Highest(start: SequenceNumber, bs: seq<Batch>): (r: SequenceNumber)
    ensures start <= r && forall b :: b in bs ==> b.Next() <= r + 1
  {
    if bs == [] then start
    else
      var n := |bs| - 1;
      var rest := Highest(start, bs[..n]);
      assert bs == bs[..n] + [bs[n]];
      if bs[n].Next() - 1 > rest then bs[n].Next() - 1 else rest
  }

  lemma {:induction false} HighestAppend(start: SequenceNumber, a: seq<Batch>, b: seq<Batch>)
    ensures Highest(start, a + b) == Highest(Highest(start, a), b)
  {
    if b == [] {
      assert a + b == a;
    } else {
      var n := |b| - 1;
      HighestAppend(start, a, b[..n]);
      assert (a + b)[..|a + b| - 1] == a + b[..n];
    }
  }

  /** The tables written so far and the memtable hold what has been replayed. */
  ghost predicate Replayed(tables: seq<File>, mem: seq<Entry>, done: set<Entry>, replayed: set<Entry>, lo: nat, next: nat) {
    && lo <= next && TablesHold(tables, done, lo, next) && Sorted(mem)
    && (forall e, x :: e in done && x in mem ==> e.key.sequence < x.key.sequence)
    && replayed == done + Elements(mem)
  }

  /** RecoverLogFile: replay one log, writing a table whenever the memtable is full and at the end.
      `before` are the batches of the earlier logs. */
  method RecoverLogFile(sizes: Sizes, log: seq<Batch>, tables: seq<File>, next: nat, maxSequence: SequenceNumber,
                        ghost before: seq<Batch>, ghost lo: nat)
    returns (tables': seq<File>, next': nat, maxSequence': SequenceNumber)
    requires InOrder(before + log)
    requires TablesHold(tables, Union(before), lo, next) && lo <= next
    ensures TablesHold(tables', Union(before + log), lo, next') && next <= next'
    ensures maxSequence' == Highest(maxSequence, log)
  {
    tables', next', maxSequence' := tables, next, maxSequence;
    var mem: Option<seq<Entry>> := None;
    ghost var done, replayed := Union(before), before;
    for i := 0 to |log|
      invariant next <= next' && InOrder(replayed + log[i..]) && replayed + log[i..] == before + log
      invariant Replayed(tables', Buffered(mem), done, Union(replayed), lo, next')
      invariant Highest(maxSequence', log[i..]) == Highest(maxSequence, log)
    {
      var batch := log[i];
      NextRecord(replayed, log, i, maxSequence');
      var lastSeq := batch.first + |batch.updates| - 1;
      if lastSeq > maxSequence' {
        maxSequence' := lastSeq;
      }
      mem, tables', next', done := ReplayRecord(sizes, batch, mem, tables', next', done, Union(replayed), lo);
      replayed := replayed + [batch];
    }
    assert replayed == before + log;
    if mem.Some? {
      tables', next' := WriteLevel0Table(sizes, mem.value, tables', next', done, lo);
    }
  }

  function Buffered(mem: Option<seq<Entry>>): seq<Entry> {
    if mem.Some? then mem.value else []
  }

  /** One round of the loop: insert the batch, and write a table if the memtable is full. */
  method ReplayRecord(sizes: Sizes, batch: Batch, mem: Option<seq<Entry>>, tables: seq<File>, next: nat,
                      ghost done: set<Entry>, ghost replayed: set<Entry>, ghost lo: nat)
    returns (mem': Option<seq<Entry>>, tables': seq<File>, next': nat, ghost done': set<Entry>)
    requires Replayed(tables, Buffered(mem), done, replayed, lo, next) && SequencesBelow(replayed, batch.first)
    ensures Replayed(tables', Buffered(mem'), done', replayed + Entries(batch), lo, next') && next <= next'
  {
    tables', next', done' := tables, next, done;
    var m := InsertInto(batch, Buffered(mem));
    mem' := Some(m);
    forall e, x | e in done && x in m
      ensures e.key.sequence < x.key.sequence
    {
      assert x in Elements(m);
    }
    if sizes.memoryFull(m) {
      tables', next' := WriteLevel0Table(sizes, m, tables, next, done, lo);
      done' := done + Elements(m);
      mem' := None;
    }
  }

  /** The next record of a log is newer than everything before it. */
  lemma NextRecord(replayed: seq<Batch>, log: seq<Batch>, i: nat, maxSequence: SequenceNumber)
    requires i < |log| && InOrder(replayed + log[i..])
    ensures Union(replayed + [log[i]]) == Union(replayed) + Entries(log[i])
    ensures SequencesBelow(Union(replayed), log[i].first)
    ensures replayed + log[i..] == (replayed + [log[i]]) + log[i + 1..]
    ensures Highest(maxSequence, log[i..])
         == Highest(if log[i].Next() - 1 > maxSequence then log[i].Next() - 1 else maxSequence, log[i + 1..])
  {
    assert log[i..] == [log[i]] + log[i + 1..];
    UnionAppend(replayed, [log[i]]);
    UnionOne(log[i]);
    NextIsNewer(replayed, log[i], log[i..]);
    NextHighest(maxSequence, log[i], log[i + 1..]);
  }

  lemma NextIsNewer(replayed: seq<Batch>, b: Batch, rest: seq<Batch>)
    requires InOrder(replayed + rest) && b in rest
    ensures SequencesBelow(Union(replayed), b.first)
  {
    InOrderParts(replayed, rest);
  }

  lemma NextHighest(maxSequence: SequenceNumber, b: Batch, rest: seq<Batch>)
    ensures Highest(maxSequence, [b] + rest)
         == Highest(if b.Next() - 1 > maxSequence then b.Next() - 1 else maxSequence, rest)
  {
    HighestAppend(maxSequence, [b], rest);
    assert [b][..0] == [];
  }

  // ---- Recover

  /** The logs to replay, in the order in which they were written. */
  ghost predicate IsReplayOrder(numbers: seq<nat>, logs: map<nat, seq<Batch>>, from: nat) {
    Ascending(numbers) && (forall n :: n in numbers <==> n in logs && from <= n)
  }

  /** Pick the live logs from a directory listing in any order, and sort them. */
  method LogsToReplay(logs: map<nat, seq<Batch>>, listing: seq<nat>, from: nat) returns (numbers: seq<nat>)
    requires forall n :: n in listing <==> n in logs
    requires forall i, j :: 0 <= i < j < |listing| ==> listing[i] != listing[j]
    ensures IsReplayOrder(numbers, logs, from)
  {
    numbers := [];
    for i := 0 to |listing|
      invariant Ascending(numbers)
      invariant forall n :: n in numbers <==> n in listing[..i] && from <= n
    {
      assert listing[..i + 1] == listing[..i] + [listing[i]];
      if from <= listing[i] {
        InsertKeepsAscending(numbers, listing[i]);
        numbers := InsertNumber(numbers, listing[i]);
      }
    }
    assert listing[..|listing|] == listing;
  }

  ghost predicate Ascending(numbers: seq<nat>) {
    forall i, j :: 0 <= i < j < |numbers| ==> numbers[i] < numbers[j]
  }

  function InsertNumber(numbers: seq<nat>, n: nat): seq<nat> {
    if numbers == [] || numbers[|numbers| - 1] < n then numbers + [n]
    else InsertNumber(numbers[..|numbers| - 1], n) + [numbers[|numbers| - 1]]
  }

  lemma {:induction false} InsertKeepsAscending(numbers: seq<nat>, n: nat)
    requires Ascending(numbers) && n !in numbers
    ensures Ascending(InsertNumber(numbers, n))
    ensures forall k :: k in InsertNumber(numbers, n) <==> k in numbers || k == n
  {
    if numbers == [] || numbers[|numbers| - 1] < n {
    } else {
      var init, last := numbers[..|numbers| - 1], numbers[|numbers| - 1];
      assert numbers == init + [last] && last in numbers;
      InsertKeepsAscending(init, n);
      forall k | k in init
        ensures k < last
      {
        var p :| 0 <= p < |init| && init[p] == k;
        assert numbers[p] == k;
      }
      AscendingAppend(InsertNumber(init, n), last);
    }
  }

  lemma AscendingAppend(s: seq<nat>, last: nat)
    requires Ascending(s) && forall k :: k in s ==> k < last
    ensures Ascending(s + [last])
  {
    assert forall i :: 0 <= i < |s| ==> s[i] in s;
  }

  /** The number after the last log replayed. */
  function ReplayedUpTo(numbers: seq<nat>, i: nat, from: nat): nat
    requires i <= |numbers|
  {
    if i == 0 then from else numbers[i - 1] + 1
  }

  /** Replaying one more log of the list is replaying all logs up to it. */
  lemma ReplayNext(numbers: seq<nat>, d: Disk, i: nat, before: seq<Batch>)
    requires IsReplayOrder(numbers, d.logs, d.manifest.logNumber) && i < |numbers|
    requires before == Records(d.logs, d.manifest.logNumber, ReplayedUpTo(numbers, i, d.manifest.logNumber))
    ensures numbers[i] in d.logs
    ensures Records(d.logs, d.manifest.logNumber, numbers[i] + 1) == before + d.logs[numbers[i]]
    ensures InOrder(Live(d)) ==> InOrder(before + d.logs[numbers[i]])
  {
    var from, to, n := d.manifest.logNumber, ReplayedUpTo(numbers, i, d.manifest.logNumber), numbers[i];
    NoLogBetween(numbers, d.logs, from, i);
    SkipGap(d.logs, from, to, n);
    PrefixInOrder(d.logs, from, n + 1, Above(d.logs.Keys));
  }

  lemma SkipGap(logs: map<nat, seq<Batch>>, from: nat, to: nat, n: nat)
    requires from <= to <= n && n in logs && forall k :: to <= k < n ==> k !in logs
    ensures Records(logs, from, n + 1) == Records(logs, from, to) + logs[n]
  {
    RecordsSplit(logs, from, to, n + 1);
    assert Records(logs, to, n + 1) == logs[n] by {
      RecordsSplit(logs, to, n, n + 1);
      RecordsEmpty(logs, to, n);
      RecordsOne(logs, n);
    }
  }

  lemma PrefixInOrder(logs: map<nat, seq<Batch>>, from: nat, mid: nat, to: nat)
    requires from <= mid <= to
    ensures InOrder(Records(logs, from, to)) ==> InOrder(Records(logs, from, mid))
  {
    RecordsSplit(logs, from, mid, to);
    InOrderParts(Records(logs, from, mid), Records(logs, mid, to));
  }

  lemma NoLogBetween(numbers: seq<nat>, logs: map<nat, seq<Batch>>, from: nat, i: nat)
    requires IsReplayOrder(numbers, logs, from) && i < |numbers|
    ensures from <= ReplayedUpTo(numbers, i, from) <= numbers[i] && numbers[i] in logs
    ensures forall k :: from <= k && k in logs ==> k < ReplayedUpTo(numbers, i, from) || numbers[i] <= k
  {
    assert numbers[i] in numbers && (i > 0 ==> numbers[i - 1] in numbers);
    forall k | from <= k && k in logs
      ensures k < ReplayedUpTo(numbers, i, from) || numbers[i] <= k
    {
      var j :| 0 <= j < |numbers| && numbers[j] == k;
      assert j < i ==> k <= numbers[i - 1];
    }
  }

  lemma ReplayEnd(numbers: seq<nat>, d: Disk)
    requires IsReplayOrder(numbers, d.logs, d.manifest.logNumber)
    ensures var to := ReplayedUpTo(numbers, |numbers|, d.manifest.logNumber);
      && Live(d) == Records(d.logs, d.manifest.logNumber, to)
      && forall n :: n in d.logs ==> n < to || n < d.manifest.logNumber
  {
    var from, to := d.manifest.logNumber, ReplayedUpTo(numbers, |numbers|, d.manifest.logNumber);
    forall n | n in d.logs && n >= from
      ensures n < to
    {
      assert n in numbers;
    }
    assert numbers != [] ==> numbers[|numbers| - 1] in numbers;
    var top := Above(d.logs.Keys);
    if to <= top {
      RecordsSplit(d.logs, from, to, top);
      RecordsEmpty(d.logs, to, top);
    } else if from <= top {
      RecordsSplit(d.logs, from, top, to);
      RecordsEmpty(d.logs, top, to);
    } else {
      RecordsEmpty(d.logs, from, to);
    }
  }

  /** VersionSet::Recover and DBImpl::Recover: the edit's tables, the next free file number and the
      last sequence number. */
  method Recover(sizes: Sizes, d: Disk, listing: seq<nat>)
    returns (tables: seq<File>, next: nat, lastSequence: SequenceNumber)
    requires DiskOK(d)
    requires forall n :: n in listing <==> n in d.logs
    requires forall i, j :: 0 <= i < j < |listing| ==> listing[i] != listing[j]
    ensures TablesHold(tables, Union(Live(d)), d.manifest.nextFile + 1, next)
    ensures lastSequence == Highest(d.manifest.lastSequence, Live(d))
    ensures d.manifest.nextFile < next && forall n :: n in d.logs ==> n < next
  {
    var manifestFileNumber := d.manifest.nextFile;
    next := manifestFileNumber + 1;
    var numbers := LogsToReplay(d.logs, listing, d.manifest.logNumber);
    var maxSequence;
    tables, next, maxSequence := ReplayLogs(sizes, d, numbers, next);
    ReplayEnd(numbers, d);
    HighestOfTwo(d.manifest.lastSequence, Live(d));
    lastSequence := if d.manifest.lastSequence < maxSequence then maxSequence else d.manifest.lastSequence;
  }

  method ReplayLogs(sizes: Sizes, d: Disk, numbers: seq<nat>, lo: nat)
    returns (tables: seq<File>, next: nat, maxSequence: SequenceNumber)
    requires InOrder(Live(d)) && IsReplayOrder(numbers, d.logs, d.manifest.logNumber) && d.manifest.logNumber <= lo
    ensures TablesHold(tables, Union(Live(d)), lo, next) && maxSequence == Highest(0, Live(d))
    ensures lo <= next && forall n :: n in numbers ==> n < next
  {
    tables, next, maxSequence := [], lo, 0;
    ghost var from := d.manifest.logNumber;
    ghost var before: seq<Batch> := [];
    assert FileEntries([]) == {} == Union([]);
    for i := 0 to |numbers|
      invariant lo <= next && ReplayedUpTo(numbers, i, from) <= next
      invariant before == Records(d.logs, from, ReplayedUpTo(numbers, i, from))
      invariant TablesHold(tables, Union(before), lo, next)
      invariant maxSequence == Highest(0, before)
    {
      var n := numbers[i];
      ReplayNext(numbers, d, i, before);
      HighestAppend(0, before, d.logs[n]);
      tables, next, maxSequence := RecoverLogFile(sizes, d.logs[n], tables, next, maxSequence, before, lo);
      before := before + d.logs[n];
      // the previous incarnation may not have recorded this number
      if next <= n {
        TablesBelow(tables, Union(before), lo, next, n + 1);
        next := n + 1;
      }
    }
    ReplayEnd(numbers, d);
  }

  lemma TablesBelow(tables: seq<File>, entries: set<Entry>, lo: nat, hi: nat, higher: nat)
    requires TablesHold(tables, entries, lo, hi) && hi <= higher
    ensures TablesHold(tables, entries, lo, higher)
  {
  }

  lemma {:induction false} HighestOfTwo(start: SequenceNumber, bs: seq<Batch>)
    ensures Highest(start, bs) == if start < Highest(0, bs) then Highest(0, bs) else start
  {
    if bs != [] {
      HighestOfTwo(start, bs[..|bs| - 1]);
    }
  }

  // ---- The recovered version

  /** Applying the edit: the tables join level 0. */
  ghost predicate Joined(v: Version, tables: seq<File>, w: Version) {
    && |w| == |v| > 0 && (forall l :: 0 < l < |v| ==> w[l] == v[l])
    && (forall f :: f in w[0] <==> f in v[0] || f in tables) && InKeyOrder(w[0])
  }

  /** The tables of the replayed logs fit on top of the version, and nothing is lost. */
  lemma RecoveredVersion(d: Disk, tables: seq<File>, next: nat, w: Version)
    requires DiskOK(d) && TablesHold(tables, Union(Live(d)), d.manifest.nextFile + 1, next) && Joined(d.manifest.version, tables, w)
    ensures VersionOK(w) && VersionEntries(w) == Durable(d)
    ensures d.manifest.nextFile < next ==> NumbersBelow(w, next)
  {
    var v := d.manifest.version;
    forall f, g | f in tables && (exists l :: 0 <= l < |v| && g in v[l])
      ensures NewerThan(f, g) && g.number < f.number
    {
      var l :| 0 <= l < |v| && g in v[l];
      forall e, x | e in f.entries && x in g.entries && e.key.user == x.key.user
        ensures e.key.sequence > x.key.sequence
      {
        assert StoredAt(v, l, x);
        StoredSomewhere(v, x);
        assert e in FileEntries(tables);
      }
    }
    RecoveredLevel0(d, tables, next, w);
    RecoveredEntries(v, tables, w);
  }

  lemma RecoveredLevel0(d: Disk, tables: seq<File>, next: nat, w: Version)
    requires VersionOK(d.manifest.version) && NumbersBelow(d.manifest.version, d.manifest.nextFile)
    requires AllWellFormed(tables) && TablesHold(tables, FileEntries(tables), d.manifest.nextFile + 1, next)
    requires Joined(d.manifest.version, tables, w)
    requires forall f, g, l :: f in tables && 0 <= l < |d.manifest.version| && g in d.manifest.version[l] ==> NewerThan(f, g)
    ensures NewestByNumber(w[0]) && DistinctNumbers(w[0]) && AllWellFormed(w[0]) && LevelsByAge(w)
  {
    var v := d.manifest.version;
    forall f, g | f in w[0] && g in w[0] && f.number > g.number
      ensures NewerThan(f, g)
    {
      if f in tables && g in tables {
        TablesByNumber(tables, next, f, g);
      }
    }
    forall i, j | 0 <= i < j < |w[0]|
      ensures w[0][i].number != w[0][j].number
    {
      var f, g := w[0][i], w[0][j];
      assert f != g && f in w[0] && g in w[0];
      if f in tables && g in tables {
        TablesByNumber(tables, next, f, g);
      } else if f in v[0] && g in v[0] {
        var a :| 0 <= a < |v[0]| && v[0][a] == f;
        var b :| 0 <= b < |v[0]| && v[0][b] == g;
      }
    }
  }

  lemma TablesByNumber(tables: seq<File>, next: nat, f: File, g: File)
    requires f in tables && g in tables && exists lo :: TablesHold(tables, FileEntries(tables), lo, next)
    ensures f.number > g.number ==> NewerThan(f, g)
    ensures f != g ==> f.number != g.number
  {
    var i :| 0 <= i < |tables| && tables[i] == f;
    var j :| 0 <= j < |tables| && tables[j] == g;
    if j < i {
      assert OlderTable(tables[j], tables[i]);
    }
  }

  lemma RecoveredEntries(v: Version, tables: seq<File>, w: Version)
    requires Joined(v, tables, w)
    ensures VersionEntries(w) == VersionEntries(v) + FileEntries(tables)
  {
    forall e
      ensures e in VersionEntries(w) <==> e in VersionEntries(v) + FileEntries(tables)
    {
      StoredSomewhere(v, e);
      StoredSomewhere(w, e);
      if e in VersionEntries(w) {
        var l :| 0 <= l < |w| && StoredAt(w, l, e);
        var f :| f in w[l] && e in f.entries;
        if f !in tables || l > 0 {
          assert StoredAt(v, l, e);
        }
      }
      if e in VersionEntries(v) {
        var l :| 0 <= l < |v| && StoredAt(v, l, e);
        var f :| f in v[l] && e in f.entries;
        assert f in w[l] && StoredAt(w, l, e);
      }
      if e in FileEntries(tables) {
        var f :| f in tables && e in f.entries;
        assert f in w[0] && StoredAt(w, 0, e);
      }
    }
  }
}
