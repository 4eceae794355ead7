/** Group commit: writers queue up, the front writer commits a group of them with the mutex
    released, and all of the group finish together (DBImpl::Write, db/db_impl.cc). */
module GroupCommit {
  import opened Concatenation
  import opened DbFormat
  import opened Recovery

  /** A user's write batch, with the size of its encoding. */
  datatype WriteBatch = WriteBatch(updates: seq<Update>, byteSize: nat)

  /** A queued writer; a writer without a batch only forces a memtable switch. */
  datatype Writer = Writer(id: nat, batch: Option<WriteBatch>, sync: bool) {
    function Updates(): seq<Update> { if batch.Some? then batch.value.updates else [] }
    function Size(): nat { if batch.Some? then batch.value.byteSize else 0 }
  }

  function UpdatesOf(w: Writer): seq<Update> {
    w.Updates()
  }

  // ---- BuildBatchGroup

  const LARGE_GROUP: nat := 1048576
  const SMALL_BATCH: nat := 131072

  /** A small first batch limits the growth of its group. */
  function MaxSize(size: nat): nat {
    if size <= SMALL_BATCH then size + SMALL_BATCH else LARGE_GROUP
  }

  /** Of the first `n` writers. */
  function TotalSize(ws: seq<Writer>, n: nat): nat
    requires n <= |ws|
  {
    if n == 0 then 0 else TotalSize(ws, n - 1) + ws[n - 1].Size()
  }

  function AllUpdates(ws: seq<Writer>, n: nat): seq<Update>
    requires n <= |ws|
  {
    Concat(UpdatesOf, ws, n)
  }

  /** Writer `i` may join the group that the front writer leads. */
  predicate MayJoin(queue: seq<Writer>, i: nat)
    requires i < |queue|
  {
    && (queue[i].sync ==> queue[0].sync)
    && (queue[i].batch.Some? ==> TotalSize(queue, i + 1) <= MaxSize(queue[0].Size()))
  }

  /** The longest run of writers that may join. */
  ghost predicate IsGroup(queue: seq<Writer>, last: nat) {
    && last < |queue| && (forall i: nat :: 1 <= i <= last ==> MayJoin(queue, i))
    && (last + 1 < |queue| ==> !MayJoin(queue, last + 1))
  }

  method BuildBatchGroup(queue: seq<Writer>) returns (last: nat, group: seq<Update>)
    requires queue != [] && queue[0].batch.Some?
    ensures IsGroup(queue, last) && group == AllUpdates(queue, last + 1)
    ensures last + 1 < |queue| ==> StopsBefore(queue, last + 1)
  {
    var first := queue[0];
    group := first.batch.value.updates;
    var size := first.batch.value.byteSize;
    var maxSize := LARGE_GROUP;
    if size <= SMALL_BATCH {
      maxSize := size + SMALL_BATCH;
    }
    last := 0;
    assert AllUpdates(queue, 0) == [];
    var iter := 1;
    while iter < |queue|
      invariant 1 <= iter <= |queue| && last == iter - 1
      invariant forall i: nat :: 1 <= i < iter ==> MayJoin(queue, i)
      invariant size == TotalSize(queue, iter) && group == AllUpdates(queue, iter)
    {
      var w := queue[iter];
      if w.sync && !first.sync {
        break;
      }
      if w.batch.Some? {
        size := size + w.batch.value.byteSize;
        if size > maxSize {
          break;
        }
        group := group + w.batch.value.updates;
      }
      last := iter;
      iter := iter + 1;
    }
    if last + 1 < |queue| {
      GroupStopsForAReason(queue, last);
    }
  }

  /** A writer is left for the next group only if it syncs behind a leader that does not, or if its batch
      takes the group over 1 MB, or over 128 KB more than a leader of at most 128 KB. */
  ghost predicate StopsBefore(queue: seq<Writer>, i: nat)
    requires i < |queue|
  {
    || (queue[i].sync && !queue[0].sync)
    || (&& queue[i].batch.Some?
        && TotalSize(queue, i + 1) > if queue[0].Size() <= 131072 then queue[0].Size() + 131072 else 1048576)
  }

  lemma GroupStopsForAReason(queue: seq<Writer>, last: nat)
    requires IsGroup(queue, last) && last + 1 < |queue|
    ensures StopsBefore(queue, last + 1)
  {
    assert !MayJoin(queue, last + 1);
  }

  /** A group of more than its leader is at most 1 MB, or 128 KB more than a small leader. */
  lemma {:induction false} GroupIsBounded(queue: seq<Writer>, n: nat)
    requires queue != [] && 1 <= n <= |queue| && forall i: nat :: 1 <= i < n ==> MayJoin(queue, i)
    ensures TotalSize(queue, n) <= if queue[0].Size() <= 1048576 then 1048576 else queue[0].Size()
    ensures queue[0].Size() <= 131072 ==> TotalSize(queue, n) <= queue[0].Size() + 131072
  {
    if n > 1 {
      assert MayJoin(queue, n - 1);
      GroupIsBounded(queue, n - 1);
    } else {
      assert TotalSize(queue, 0) == 0;
    }
  }

  /** No queue splits into groups in two ways. */
  lemma GroupIsUnique(queue: seq<Writer>, a: nat, b: nat)
    requires IsGroup(queue, a) && IsGroup(queue, b)
    ensures a == b
  {
    assert a + 1 < |queue| ==> !MayJoin(queue, a + 1);
    assert b + 1 < |queue| ==> !MayJoin(queue, b + 1);
  }

  /** The loop at the end of Write: pop writers up to and including the last of the group. */
  method PopGroup(queue: seq<Writer>, lastWriter: Writer, ghost last: nat) returns (done: seq<Writer>, rest: seq<Writer>)
    requires last < |queue| && queue[last] == lastWriter
    requires forall i, j :: 0 <= i < j < |queue| ==> queue[i].id != queue[j].id
    ensures done == queue[..last + 1] && rest == queue[last + 1..]
  {
    done, rest := [], queue;
    while true
      invariant |done| <= last && done == queue[..|done|] && rest == queue[|done|..]
      decreases |rest|
    {
      var ready := rest[0];
      assert ready == queue[|done|];
      rest := rest[1..];
      done := done + [ready];
      if ready.id == lastWriter.id {
        break;
      }
    }
  }

  // ---- The protocol

  /** What a writer was told: the sequence numbers it took, whether it was committed, and the log
      record that holds it. */
  datatype Ack = Ack(writer: Writer, first: SequenceNumber, taken: nat, committed: bool, record: nat) {
    function AsBatch(): Batch { Batch(first, writer.Updates()) }
  }

  /** The front writer: waiting for room, or committing with the mutex released. */
  datatype Phase =
    | Quiet
    | MakingRoom
    | Committing(last: nat, logged: bool, synced: bool, inserted: nat, failed: bool)

  /** MakeRoomForWrite: `force` asks for a switch of the memtable, `switched` tells whether the front
      writer's call made one, and the current memtable holds the entries from `start` on. */
  datatype Room = Room(force: bool, switched: bool, start: nat)

  /** How a writer was served: its place in the group, whether its own call switched the memtable, and
      how many entries were in memtables that had been switched away when it was answered. */
  datatype Service = Service(place: nat, switched: bool, sealed: nat)

  /** `arrived` lists all writers in the order of their arrival; `durable` holds the log records
      known to be on stable storage, and `mem` what has been inserted into memtables. `served`
      belongs to `finished`. */
  datatype State = State(arrived: seq<Writer>, queue: seq<Writer>, finished: seq<Ack>, phase: Phase,
                         lastSequence: SequenceNumber, log: seq<Batch>, durable: set<nat>, mem: seq<Entry>,
                         snapshots: set<SequenceNumber>, room: Room, served: seq<Service>)

  ghost predicate Init(s: State) {
    s == State([], [], [], Quiet, 0, [], {}, [], {}, Room(false, false, 0), [])
  }

  /** What the group being committed writes. */
  function GroupBatch(s: State): Batch
    requires s.phase.Committing? && s.phase.last < |s.queue|
  {
    Batch(s.lastSequence + 1, AllUpdates(s.queue, s.phase.last + 1))
  }

  /** The log record of the group, or the next one if the group is not logged. */
  function GroupRecord(s: State): nat
    requires s.phase.Committing?
  {
    if s.phase.logged && s.log != [] then |s.log| - 1 else |s.log|
  }

  /** Each of the first `n` writers takes as many numbers as it has updates. */
  function Acks(ws: seq<Writer>, n: nat, first: SequenceNumber, committed: bool, record: nat): seq<Ack>
    requires n <= |ws|
  {
    seq(n, i requires 0 <= i < n => Ack(ws[i], first + |AllUpdates(ws, i)|, |ws[i].Updates()|, committed, record))
  }

  /** The acknowledgements of the group. */
  function GroupAcks(s: State): seq<Ack>
    requires s.phase.Committing? && s.phase.last < |s.queue|
  {
    Acks(s.queue, s.phase.last + 1, s.lastSequence + 1, !s.phase.failed, GroupRecord(s))
  }

  ghost predicate Arrive(s: State, s': State) {
    exists w: Writer :: s' == s.(arrived := s.arrived + [w], queue := s.queue + [w])
  }

  /** How the group's members are served. */
  function GroupServices(s: State): seq<Service>
    requires s.phase.Committing?
  {
    seq(s.phase.last + 1, i requires 0 <= i < s.phase.last + 1 => Service(i, i == 0 && s.room.switched, s.room.start))
  }

  /** The front writer calls MakeRoomForWrite; without a batch it forces a switch. */
  ghost predicate MakeRoom(s: State, s': State) {
    && s.phase.Quiet? && s.queue != []
    && s' == s.(phase := MakingRoom, room := Room(s.queue[0].batch.None?, false, s.room.start))
  }

  /** The memtable is switched, because that is forced or because it is full. */
  ghost predicate SwitchMemTable(s: State, s': State) {
    s.phase.MakingRoom? && s' == s.(room := Room(false, true, |s.mem|))
  }

  /** No room could be made, or there is nothing to write: the front writer alone is done. */
  ghost predicate FinishAlone(s: State, s': State) {
    && s.phase.MakingRoom? && s.queue != []
    && exists committed: bool :: FinishesAlone(s, s', committed)
  }

  ghost predicate FinishesAlone(s: State, s': State, committed: bool)
    requires s.queue != []
  {
    && (committed ==> s.queue[0].batch.None? && !s.room.force)
    && s' == s.(phase := Quiet, queue := s.queue[1..],
                served := s.served + [Service(0, s.room.switched, s.room.start)],
                finished := s.finished + [Ack(s.queue[0], s.lastSequence + 1, 0, committed, |s.log|)])
  }

  ghost predicate BuildGroup(s: State, s': State) {
    && s.phase.MakingRoom? && !s.room.force && s.queue != [] && s.queue[0].batch.Some? && s'.phase.Committing?
    && IsGroup(s.queue, s'.phase.last) && s' == s.(phase := Committing(s'.phase.last, false, false, 0, false))
  }

  ghost predicate InGroup(s: State) {
    s.phase.Committing? && s.phase.last < |s.queue| && !s.phase.failed
  }

  ghost predicate AppendToLog(s: State, s': State) {
    InGroup(s) && !s.phase.logged && s' == s.(phase := s.phase.(logged := true), log := s.log + [GroupBatch(s)])
  }

  ghost predicate SyncLog(s: State, s': State) {
    && InGroup(s) && s.phase.logged && !s.phase.synced && s.queue[0].sync
    && s' == s.(phase := s.phase.(synced := true), durable := s.durable + {GroupRecord(s)})
  }

  /** The append or the sync fails. */
  ghost predicate FailLog(s: State, s': State) {
    && InGroup(s) && (!s.phase.logged || (s.queue[0].sync && !s.phase.synced))
    && s' == s.(phase := s.phase.(failed := true))
  }

  ghost predicate InsertNext(s: State, s': State) {
    && InGroup(s) && s.phase.logged && (s.queue[0].sync ==> s.phase.synced)
    && s.phase.inserted < |GroupBatch(s).updates|
    && s' == s.(phase := s.phase.(inserted := s.phase.inserted + 1),
                mem := s.mem + [GroupBatch(s).EntryAt(s.phase.inserted)])
  }

  /** The last sequence number advances, also after a failure, and the group is done. */
  ghost predicate FinishGroup(s: State, s': State) {
    && s.phase.Committing? && s.phase.last < |s.queue|
    && (s.phase.failed ||
        (s.phase.logged && (s.queue[0].sync ==> s.phase.synced) && s.phase.inserted == |GroupBatch(s).updates|))
    && s' == s.(phase := Quiet, queue := s.queue[s.phase.last + 1..],
                lastSequence := s.lastSequence + |GroupBatch(s).updates|, finished := s.finished + GroupAcks(s),
                served := s.served + GroupServices(s))
  }

  /** A reader or an iterator takes the last sequence number; it may keep it for good. */
  ghost predicate TakeSnapshot(s: State, s': State) {
    s' == s.(snapshots := s.snapshots + {s.lastSequence})
  }

  ghost predicate Step(s: State, s': State) {
    || Arrive(s, s') || MakeRoom(s, s') || SwitchMemTable(s, s') || FinishAlone(s, s') || BuildGroup(s, s') || AppendToLog(s, s')
    || SyncLog(s, s') || FailLog(s, s') || InsertNext(s, s') || FinishGroup(s, s') || TakeSnapshot(s, s')
  }

  // ---- The invariant

  /** The acknowledged blocks of sequence numbers follow one another without gap or overlap. */
  ghost predicate Tiles(acks: seq<Ack>, from: SequenceNumber, to: SequenceNumber) {
    && (forall i :: 0 <= i < |acks| ==> StartsFree(acks, i, from))
    && to == NextFree(acks, |acks|, from)
  }

  ghost predicate StartsFree(acks: seq<Ack>, i: nat, from: SequenceNumber)
    requires i < |acks|
  {
    acks[i].first == NextFree(acks, i, from)
  }

  function NextFree(acks: seq<Ack>, i: nat, from: SequenceNumber): SequenceNumber
    requires i <= |acks|
  {
    if i == 0 then from else acks[i - 1].first + acks[i - 1].taken
  }

  function EntriesOf(b: Batch): seq<Entry> {
    seq(|b.updates|, i requires 0 <= i < |b.updates| => b.EntryAt(i))
  }

  function Own(a: Ack): seq<Entry> {
    if a.committed then EntriesOf(a.AsBatch()) else []
  }

  /** The entries of the first `n` writers, as far as they were committed. */
  function Written(acks: seq<Ack>, n: nat): seq<Entry>
    requires n <= |acks|
  {
    Concat(Own, acks, n)
  }

  function WritersOf(acks: seq<Ack>): seq<Writer> {
    seq(|acks|, i requires 0 <= i < |acks| => acks[i].writer)
  }

  /** Record `b` holds the updates of `a` under the sequence numbers of `a`. */
  ghost predicate Within(a: Batch, b: Batch) {
    && b.first <= a.first && a.Next() <= b.Next()
    && a.updates == b.updates[a.first - b.first..a.Next() - b.first]
  }

  /** What a positive answer means: the log holds the writer's entries, on stable storage if it
      asked for that. */
  ghost predicate Kept(a: Ack, log: seq<Batch>, durable: set<nat>) {
    a.committed && a.writer.Updates() != [] ==>
      && a.record < |log| && Within(a.AsBatch(), log[a.record])
      && (a.writer.sync ==> a.record in durable)
  }

  /** A reader at `snap` sees all of the block or none of it. */
  ghost predicate Whole(a: Ack, snap: SequenceNumber) {
    snap < a.first || a.first + a.taken <= snap + 1
  }

  ghost predicate StateInv(s: State) {
    && s.arrived == WritersOf(s.finished) + s.queue
    && Tiles(s.finished, 1, s.lastSequence + 1)
    && (forall a :: a in s.finished && a.committed ==> a.taken == |a.writer.Updates()|)
    && (forall a :: a in s.finished ==> Kept(a, s.log, s.durable))
    && (forall snap :: snap in s.snapshots ==> snap <= s.lastSequence)
    && (forall a, snap :: a in s.finished && snap in s.snapshots + {s.lastSequence} ==> Whole(a, snap))
    && PhaseOK(s)
  }

  ghost predicate PhaseOK(s: State) {
    match s.phase
    case Quiet => s.mem == Written(s.finished, |s.finished|)
    case MakingRoom => s.mem == Written(s.finished, |s.finished|) && s.queue != []
    case Committing(last, logged, synced, inserted, failed) =>
      && GroupOK(s) && inserted <= |GroupBatch(s).updates|
      && (inserted > 0 ==> logged && !failed && (s.queue[0].sync ==> synced))
      && s.mem == Written(s.finished, |s.finished|) + EntriesOf(GroupBatch(s))[..inserted]
  }

  ghost predicate GroupOK(s: State)
    requires s.phase.Committing?
  {
    && s.phase.last < |s.queue| && s.queue[0].batch.Some?
    && (forall i: nat :: 1 <= i <= s.phase.last ==> MayJoin(s.queue, i))
    && (s.phase.logged ==> s.log != [] && s.log[|s.log| - 1] == GroupBatch(s))
    && (s.phase.synced ==> s.phase.logged && GroupRecord(s) in s.durable)
  }

  // ---- Facts about groups

  lemma SplitEntries(first: SequenceNumber, u: seq<Update>, v: seq<Update>)
    ensures EntriesOf(Batch(first, u + v)) == EntriesOf(Batch(first, u)) + EntriesOf(Batch(first + |u|, v))
  {
  }

  lemma OneMoreMember(a: Ack, first: SequenceNumber, u: seq<Update>, v: seq<Update>)
    requires a.AsBatch() == Batch(first + |u|, v)
    ensures Own(a) == if a.committed then EntriesOf(Batch(first + |u|, v)) else []
    ensures EntriesOf(Batch(first, u + v)) == EntriesOf(Batch(first, u)) + EntriesOf(Batch(first + |u|, v))
  {
    SplitEntries(first, u, v);
  }

  /** One log record and one insertion of the whole group are the members' own batches, each under
      its own block of sequence numbers. */
  lemma {:induction false} GroupIsItsMembers(ws: seq<Writer>, n: nat, first: SequenceNumber, committed: bool, record: nat, k: nat)
    requires k <= n <= |ws|
    ensures Written(Acks(ws, n, first, committed, record), k)
         == if committed then EntriesOf(Batch(first, AllUpdates(ws, k))) else []
  {
    if k > 0 {
      GroupIsItsMembers(ws, n, first, committed, record, k - 1);
      OneMoreMember(Acks(ws, n, first, committed, record)[k - 1], first, AllUpdates(ws, k - 1), ws[k - 1].Updates());
    }
  }

  lemma GroupTiles(ws: seq<Writer>, n: nat, first: SequenceNumber, committed: bool, record: nat)
    requires n <= |ws|
    ensures Tiles(Acks(ws, n, first, committed, record), first, first + |AllUpdates(ws, n)|)
  {
  }

  /** A member's block of sequence numbers covers its updates within those of the group. */
  lemma MemberInside(ws: seq<Writer>, n: nat, first: SequenceNumber, i: nat)
    requires i < n <= |ws|
    ensures Within(Batch(first + |AllUpdates(ws, i)|, ws[i].Updates()), Batch(first, AllUpdates(ws, n)))
  {
    PieceWithin(UpdatesOf, ws, n, i);
  }

  lemma TilesAppend(a: seq<Ack>, b: seq<Ack>, from: SequenceNumber, mid: SequenceNumber, to: SequenceNumber)
    requires Tiles(a, from, mid) && Tiles(b, mid, to)
    ensures Tiles(a + b, from, to)
  {
    forall i | 0 <= i < |a + b|
      ensures StartsFree(a + b, i, from)
    {
      assert if i < |a| then StartsFree(a, i, from) else StartsFree(b, i - |a|, mid);
    }
  }

  /** Blocks never overlap: no sequence number is taken twice. */
  lemma {:induction false} TilesApart(acks: seq<Ack>, from: SequenceNumber, to: SequenceNumber, i: nat, j: nat)
    requires Tiles(acks, from, to) && i <= j <= |acks|
    ensures NextFree(acks, i, from) <= NextFree(acks, j, from)
  {
    if i < j {
      TilesApart(acks, from, to, i, j - 1);
      assert StartsFree(acks, j - 1, from);
    }
  }

  lemma TilesWithin(acks: seq<Ack>, from: SequenceNumber, to: SequenceNumber, i: nat)
    requires Tiles(acks, from, to) && i < |acks|
    ensures from <= acks[i].first && acks[i].first + acks[i].taken <= to
  {
    assert StartsFree(acks, i, from);
    TilesApart(acks, from, to, 0, i);
    TilesApart(acks, from, to, i + 1, |acks|);
  }

  // ---- Each step keeps the invariant

  lemma {:induction false} LongerQueue(queue: seq<Writer>, w: Writer, n: nat)
    requires n <= |queue|
    ensures TotalSize(queue + [w], n) == TotalSize(queue, n)
  {
    if n > 0 {
      LongerQueue(queue, w, n - 1);
    }
  }

  lemma ArriveStep(s: State, s': State)
    requires StateInv(s) && Arrive(s, s')
    ensures StateInv(s')
  {
    var w: Writer :| s' == s.(arrived := s.arrived + [w], queue := s.queue + [w]);
    if s.phase.Committing? {
      ConcatPrefix(UpdatesOf, s.queue, [w], s.phase.last + 1);
      forall i: nat | 1 <= i <= s.phase.last
        ensures MayJoin(s'.queue, i)
      {
        assert MayJoin(s.queue, i);
        LongerQueue(s.queue, w, i + 1);
      }
    }
  }

  /** Acknowledgements at the end keep everything said about the earlier ones. */
  lemma MoreAcks(s: State, s': State, acks: seq<Ack>, ws: seq<Writer>)
    requires StateInv(s) && s'.finished == s.finished + acks && s'.arrived == s.arrived && s.queue == ws + s'.queue
    requires WritersOf(acks) == ws && Tiles(acks, s.lastSequence + 1, s'.lastSequence + 1)
    requires s'.snapshots == s.snapshots && s'.log == s.log && s'.durable == s.durable
    requires forall a :: a in acks ==> Kept(a, s.log, s.durable) && (a.committed ==> a.taken == |a.writer.Updates()|)
    requires s.lastSequence <= s'.lastSequence && PhaseOK(s')
    ensures StateInv(s')
  {
    TilesAppend(s.finished, acks, 1, s.lastSequence + 1, s'.lastSequence + 1);
    ArrivalsInOrder(s, s', acks, ws);
    MoreAreWhole(s, s', acks);
  }

  lemma ArrivalsInOrder(s: State, s': State, acks: seq<Ack>, ws: seq<Writer>)
    requires s'.finished == s.finished + acks && s.queue == ws + s'.queue && WritersOf(acks) == ws
    ensures WritersOf(s.finished) + s.queue == WritersOf(s'.finished) + s'.queue
  {
    assert WritersOf(s.finished + acks) == WritersOf(s.finished) + ws;
  }

  lemma MoreAreWhole(s: State, s': State, acks: seq<Ack>)
    requires Tiles(s.finished, 1, s.lastSequence + 1) && Tiles(acks, s.lastSequence + 1, s'.lastSequence + 1)
    requires s'.finished == s.finished + acks && s'.snapshots == s.snapshots && s.lastSequence <= s'.lastSequence
    requires forall a, snap :: a in s.finished && snap in s.snapshots + {s.lastSequence} ==> Whole(a, snap)
    requires forall snap :: snap in s.snapshots ==> snap <= s.lastSequence
    ensures forall a, snap :: a in s'.finished && snap in s'.snapshots + {s'.lastSequence} ==> Whole(a, snap)
  {
    forall a, snap | a in s'.finished && snap in s'.snapshots + {s'.lastSequence}
      ensures Whole(a, snap)
    {
      AckWithin(s, s', acks, a);
    }
  }

  lemma AckWithin(s: State, s': State, acks: seq<Ack>, a: Ack)
    requires Tiles(s.finished, 1, s.lastSequence + 1) && Tiles(acks, s.lastSequence + 1, s'.lastSequence + 1)
    requires a in s.finished + acks && s.lastSequence <= s'.lastSequence
    ensures a.first + a.taken <= s'.lastSequence + 1
    ensures a !in s.finished ==> s.lastSequence < a.first
  {
    if a in s.finished {
      var i :| 0 <= i < |s.finished| && s.finished[i] == a;
      TilesWithin(s.finished, 1, s.lastSequence + 1, i);
    } else {
      var i :| 0 <= i < |acks| && acks[i] == a;
      TilesWithin(acks, s.lastSequence + 1, s'.lastSequence + 1, i);
    }
  }

  lemma FinishAloneStep(s: State, s': State)
    requires StateInv(s) && FinishAlone(s, s')
    ensures StateInv(s')
  {
    var w := s.queue[0];
    var committed: bool :| FinishesAlone(s, s', committed);
    var a := Ack(w, s.lastSequence + 1, 0, committed, |s.log|);
    ConcatAppend(Own, s.finished, [a], 1);
    assert Written([a], 0) == [] && Own(a) == [];
    assert s.queue == [w] + s'.queue && WritersOf([a]) == [w];
    MoreAcks(s, s', [a], [w]);
  }

  lemma InsertNextStep(s: State, s': State)
    requires StateInv(s) && InsertNext(s, s')
    ensures StateInv(s')
  {
    assert GroupBatch(s') == GroupBatch(s);
  }

  /** Only a leader that syncs has members that ask for it. */
  lemma MemberIsKept(s: State, i: nat)
    requires s.phase.Committing? && GroupOK(s) && i <= s.phase.last
    requires s.phase.failed || (s.phase.logged && (s.queue[0].sync ==> s.phase.synced))
    ensures Kept(GroupAcks(s)[i], s.log, s.durable)
  {
    MemberInside(s.queue, s.phase.last + 1, s.lastSequence + 1, i);
    assert i == 0 || MayJoin(s.queue, i);
  }

  /** A finished group leaves in the memtable what its members wrote. */
  lemma GroupWritten(finished: seq<Ack>, acks: seq<Ack>, batch: Batch, inserted: nat)
    requires inserted <= |batch.updates|
    requires Written(acks, |acks|) == EntriesOf(batch)[..inserted]
    ensures Written(finished + acks, |finished + acks|) == Written(finished, |finished|) + EntriesOf(batch)[..inserted]
  {
    ConcatAppend(Own, finished, acks, |acks|);
  }

  lemma GroupWrites(s: State)
    requires s.phase.Committing? && s.phase.last < |s.queue|
    requires s.phase.inserted == if s.phase.failed then 0 else |GroupBatch(s).updates|
    ensures Written(GroupAcks(s), |GroupAcks(s)|) == EntriesOf(GroupBatch(s))[..s.phase.inserted]
  {
    var n := s.phase.last + 1;
    GroupIsItsMembers(s.queue, n, s.lastSequence + 1, !s.phase.failed, GroupRecord(s), n);
  }

  lemma GroupAcksOK(s: State)
    requires s.phase.Committing? && GroupOK(s)
    requires s.phase.failed || (s.phase.logged && (s.queue[0].sync ==> s.phase.synced))
    ensures forall a :: a in GroupAcks(s) ==> Kept(a, s.log, s.durable) && a.taken == |a.writer.Updates()|
    ensures WritersOf(GroupAcks(s)) == s.queue[..s.phase.last + 1]
  {
    var acks := GroupAcks(s);
    forall a | a in acks
      ensures Kept(a, s.log, s.durable) && a.taken == |a.writer.Updates()|
    {
      var i :| 0 <= i < |acks| && acks[i] == a;
      MemberIsKept(s, i);
    }
  }

  lemma FinishGroupStep(s: State, s': State)
    requires StateInv(s) && FinishGroup(s, s')
    ensures StateInv(s')
  {
    GroupAnswers(s);
    FinishWith(s, s', GroupAcks(s), GroupBatch(s));
  }

  lemma GroupAnswers(s: State)
    requires PhaseOK(s) && s.phase.Committing?
    requires s.phase.failed ||
      (s.phase.logged && (s.queue[0].sync ==> s.phase.synced) && s.phase.inserted == |GroupBatch(s).updates|)
    ensures Answers(s, GroupAcks(s), GroupBatch(s))
  {
    hide Kept, Tiles, MayJoin;
    GroupTiles(s.queue, s.phase.last + 1, s.lastSequence + 1, !s.phase.failed, GroupRecord(s));
    GroupAcksOK(s);
    GroupWrites(s);
  }

  /** The acknowledgements match what the group has logged and inserted. */
  ghost predicate Answers(s: State, acks: seq<Ack>, batch: Batch)
    requires s.phase.Committing? && s.phase.last < |s.queue|
  {
    && Tiles(acks, s.lastSequence + 1, s.lastSequence + |batch.updates| + 1)
    && WritersOf(acks) == s.queue[..s.phase.last + 1]
    && (forall a :: a in acks ==> Kept(a, s.log, s.durable) && a.taken == |a.writer.Updates()|)
    && s.phase.inserted <= |batch.updates| && Written(acks, |acks|) == EntriesOf(batch)[..s.phase.inserted]
  }

  lemma FinishWith(s: State, s': State, acks: seq<Ack>, batch: Batch)
    requires StateInv(s) && s.phase.Committing? && s.phase.last < |s.queue| && batch == GroupBatch(s)
    requires s' == s.(phase := Quiet, queue := s.queue[s.phase.last + 1..],
                      lastSequence := s.lastSequence + |batch.updates|, finished := s.finished + acks, served := s'.served)
    requires Answers(s, acks, batch)
    ensures StateInv(s')
  {
    GroupWritten(s.finished, acks, batch, s.phase.inserted);
    MoreAcks(s, s', acks, s.queue[..s.phase.last + 1]);
  }

  lemma StepKeepsInv(s: State, s': State)
    requires StateInv(s) && Step(s, s')
    ensures StateInv(s')
  {
    if Arrive(s, s') {
      ArriveStep(s, s');
    } else if FinishAlone(s, s') {
      FinishAloneStep(s, s');
    } else if InsertNext(s, s') {
      InsertNextStep(s, s');
    } else if FinishGroup(s, s') {
      FinishGroupStep(s, s');
    } else if AppendToLog(s, s') {
      AppendToLogStep(s, s');
    } else {
      assert s'.phase.Committing? && s.phase.Committing? ==> GroupBatch(s') == GroupBatch(s);
    }
  }

  lemma AppendToLogStep(s: State, s': State)
    requires StateInv(s) && AppendToLog(s, s')
    ensures StateInv(s')
  {
    forall a | a in s'.finished
      ensures Kept(a, s'.log, s'.durable)
    {
      assert Kept(a, s.log, s.durable);
    }
  }

  // ---- Forced switches

  /** A writer at the front that is told of success without a batch had the memtable switched behind
      everything written before it; a later member of a group had no switch at all. */
  ghost predicate ServedOK(finished: seq<Ack>, served: seq<Service>, k: nat)
    requires k < |finished| == |served|
  {
    var a, v := finished[k], served[k];
    && v.place <= k
    && (v.place == 0 && a.committed && a.writer.batch.None? ==> v.switched && v.sealed == |Written(finished, k)|)
    && (v.place > 0 ==>
          var leader := k - v.place;
          && !v.switched && v.sealed <= |Written(finished, leader)|
          && served[leader].place == 0 && finished[leader].writer.batch.Some? && finished[leader].committed == a.committed)
  }

  ghost predicate RoomInv(s: State) {
    && |s.served| == |s.finished| && s.room.start <= |Written(s.finished, |s.finished|)|
    && (s.phase.MakingRoom? && !s.room.force && s.queue != [] && s.queue[0].batch.None? ==>
          s.room.switched && s.room.start == |s.mem|)
    && forall k: nat :: k < |s.finished| ==> ServedOK(s.finished, s.served, k)
  }

  /** What was said of the writers served so far stays true when more are served. */
  lemma StillServed(finished: seq<Ack>, served: seq<Service>, acks: seq<Ack>, more: seq<Service>, k: nat)
    requires |finished| == |served| && |acks| == |more| && k < |finished| && ServedOK(finished, served, k)
    ensures ServedOK(finished + acks, served + more, k)
  {
    ConcatPrefix(Own, finished, acks, k);
    ConcatPrefix(Own, finished, acks, k - served[k].place);
  }

  lemma FinishAloneServes(s: State, s': State)
    requires StateInv(s) && RoomInv(s) && FinishAlone(s, s')
    ensures RoomInv(s')
  {
    var committed: bool :| FinishesAlone(s, s', committed);
    var acks, more := [Ack(s.queue[0], s.lastSequence + 1, 0, committed, |s.log|)], [Service(0, s.room.switched, s.room.start)];
    var n := |s.finished|;
    ConcatPrefix(Own, s.finished, acks, n);
    PieceWithin(Own, s'.finished, n + 1, n);
    forall k: nat | k < n + 1
      ensures ServedOK(s'.finished, s'.served, k)
    {
      if k < n {
        StillServed(s.finished, s.served, acks, more, k);
      }
    }
  }

  lemma FinishGroupServes(s: State, s': State)
    requires StateInv(s) && RoomInv(s) && FinishGroup(s, s')
    ensures RoomInv(s')
  {
    var acks, more, n := GroupAcks(s), GroupServices(s), |s.finished|;
    ConcatPrefix(Own, s.finished, acks, n);
    PieceWithin(Own, s'.finished, n + 1, n);
    PrefixLength(s'.finished, n, |s'.finished|);
    forall k: nat | k < |s'.finished|
      ensures ServedOK(s'.finished, s'.served, k)
    {
      if k < n {
        StillServed(s.finished, s.served, acks, more, k);
      }
    }
  }

  lemma PrefixLength(acks: seq<Ack>, i: nat, n: nat)
    requires i < n <= |acks|
    ensures |Written(acks, i)| + |Own(acks[i])| <= |Written(acks, n)|
  {
    PieceWithin(Own, acks, n, i);
  }

  lemma StepServes(s: State, s': State)
    requires StateInv(s) && RoomInv(s) && Step(s, s')
    ensures RoomInv(s')
  {
    if FinishAlone(s, s') {
      FinishAloneServes(s, s');
    } else if FinishGroup(s, s') {
      FinishGroupServes(s, s');
    }
  }

  // ---- Runs

  ghost predicate Run(run: seq<State>) {
    run != [] && Init(run[0]) && forall i :: 0 < i < |run| ==> Step(run[i - 1], run[i])
  }

  lemma {:induction false} ReachableInv(run: seq<State>, i: nat)
    requires Run(run) && i < |run|
    ensures StateInv(run[i])
  {
    if i == 0 {
      assert run[0].arrived == WritersOf(run[0].finished) + run[0].queue;
    } else {
      ReachableInv(run, i - 1);
      StepKeepsInv(run[i - 1], run[i]);
    }
  }

  lemma {:induction false} ReachableRoomInv(run: seq<State>, i: nat)
    requires Run(run) && i < |run|
    ensures RoomInv(run[i])
  {
    if i > 0 {
      ReachableInv(run, i - 1);
      ReachableRoomInv(run, i - 1);
      StepServes(run[i - 1], run[i]);
    }
  }

  /** A writer without a batch that is told of success got the switch it asked for if and only if it
      was at the front of the queue when it was served. Then all that was written before it is in
      memtables that were switched away; behind a leader that writes something, it is not. */
  lemma SwitchedIffAtFront(run: seq<State>, i: nat, k: nat)
    requires Run(run) && i < |run| && k < |run[i].finished|
    requires run[i].finished[k].committed && run[i].finished[k].writer.batch.None?
    ensures |run[i].served| == |run[i].finished| && run[i].served[k].place <= k
    ensures run[i].served[k].switched <==> run[i].served[k].place == 0
    ensures var finished, v := run[i].finished, run[i].served[k];
      finished[k - v.place].writer.Updates() != [] || v.place == 0 ==>
        (v.sealed == |Written(finished, k)| <==> v.place == 0)
  {
    ReachableRoomInv(run, i);
    ReachableInv(run, i);
    var finished, v := run[i].finished, run[i].served[k];
    assert ServedOK(finished, run[i].served, k);
    if v.place > 0 {
      PrefixLength(finished, k - v.place, k);
    }
  }

  /** A reader at `snap` finds the entry in a memtable. */
  ghost predicate Visible(mem: seq<Entry>, snap: SequenceNumber, e: Entry) {
    e in mem && e.key.sequence <= snap
  }

  /** Writers finish in the order of their arrival; their blocks of sequence numbers are contiguous and
      never reused, even after a failure. */
  lemma WritersAreServedInOrder(run: seq<State>, i: nat, j: nat, k: nat)
    requires Run(run) && i < |run| && j < k < |run[i].finished|
    ensures WritersOf(run[i].finished) <= run[i].arrived
    ensures run[i].finished[j].first + run[i].finished[j].taken <= run[i].finished[k].first
    ensures k == j + 1 ==> run[i].finished[j].first + run[i].finished[j].taken == run[i].finished[k].first
  {
    var s := run[i];
    ReachableInv(run, i);
    assert StartsFree(s.finished, k, 1);
    TilesApart(s.finished, 1, s.lastSequence + 1, j + 1, k);
  }

  /** Every finished writer's block is below the next free sequence number, and a writer that asked for
      a sync was answered positively only if its record is on stable storage. */
  lemma AnswersAreKept(run: seq<State>, i: nat, k: nat)
    requires Run(run) && i < |run| && k < |run[i].finished|
    ensures run[i].finished[k].first + run[i].finished[k].taken <= run[i].lastSequence + 1
    ensures Kept(run[i].finished[k], run[i].log, run[i].durable)
  {
    var s := run[i];
    ReachableInv(run, i);
    TilesWithin(s.finished, 1, s.lastSequence + 1, k);
    assert s.finished[k] in s.finished;
  }

  /** A reader sees all of a batch or none of it, whether the batch is finished or in flight. */
  lemma NoPartOfABatch(run: seq<State>, i: nat, snap: SequenceNumber)
    requires Run(run) && i < |run| && (snap in run[i].snapshots || snap == run[i].lastSequence)
    ensures forall a :: a in run[i].finished && a.committed ==>
      || (forall e :: e in EntriesOf(a.AsBatch()) ==> Visible(run[i].mem, snap, e))
      || (forall e :: e in EntriesOf(a.AsBatch()) ==> e.key.sequence > snap)
    ensures forall e :: Visible(run[i].mem, snap, e) ==> e in Written(run[i].finished, |run[i].finished|)
  {
    var s := run[i];
    ReachableInv(run, i);
    forall a | a in s.finished && a.committed
      ensures || (forall e :: e in EntriesOf(a.AsBatch()) ==> Visible(s.mem, snap, e))
              || (forall e :: e in EntriesOf(a.AsBatch()) ==> e.key.sequence > snap)
    {
      assert Whole(a, snap);
      var j :| 0 <= j < |s.finished| && s.finished[j] == a;
      ConcatMember(Own, s.finished, |s.finished|, j);
    }
  }

  /** What a snapshot shows does not change while later groups are being inserted. */
  lemma ViewIsStable(s: State, s': State, snap: SequenceNumber, e: Entry)
    requires StateInv(s) && Step(s, s') && (snap in s.snapshots || snap == s.lastSequence)
    ensures Visible(s'.mem, snap, e) <==> Visible(s.mem, snap, e)
  {
    if InsertNext(s, s') {
      assert GroupBatch(s).EntryAt(s.phase.inserted).key.sequence > snap;
    }
  }

  // ---- A writer without a batch behind one with a batch

  const PUTS := Writer(1, Some(WriteBatch([Update(TypeValue, 1.0, "v")], 20)), false)
  const FORCES := Writer(2, None, false)
  const RECORD := Batch(1, [Update(TypeValue, 1.0, "v")])
  const PUT_ENTRY := Entry(InternalKey(1.0, 1, TypeValue), "v")
  const NO_ROOM := Room(false, false, 0)
  const ANSWERS := [Ack(PUTS, 1, 1, true, 0), Ack(FORCES, 2, 0, true, 0)]
  const SERVICES := [Service(0, false, 0), Service(1, false, 0)]
  const BOTH := [PUTS, FORCES]

  const ABSORBED: seq<State> := [
    State([], [], [], Quiet, 0, [], {}, [], {}, NO_ROOM, []),
    State([PUTS], [PUTS], [], Quiet, 0, [], {}, [], {}, NO_ROOM, []),
    State([PUTS], [PUTS], [], MakingRoom, 0, [], {}, [], {}, NO_ROOM, []),
    State(BOTH, BOTH, [], MakingRoom, 0, [], {}, [], {}, NO_ROOM, []),
    State(BOTH, BOTH, [], Committing(1, false, false, 0, false), 0, [], {}, [], {}, NO_ROOM, []),
    State(BOTH, BOTH, [], Committing(1, true, false, 0, false), 0, [RECORD], {}, [], {}, NO_ROOM, []),
    State(BOTH, BOTH, [], Committing(1, true, false, 1, false), 0, [RECORD], {}, [PUT_ENTRY], {}, NO_ROOM, []),
    State(BOTH, [], ANSWERS, Quiet, 1, [RECORD], {}, [PUT_ENTRY], {}, NO_ROOM, SERVICES)]

  /** The second writer asked for a switch and is told of success, and no memtable was ever switched. */
  lemma AbsorbedWithoutSwitch()
    ensures Run(ABSORBED) && |ABSORBED| == 8
    ensures var s := ABSORBED[7];
      && s.finished[1].writer == FORCES && s.finished[1].committed
      && !s.served[1].switched && s.served[1].sealed < |Written(s.finished, 1)|
  {
    BothUpdates();
    assert [PUTS] == [] + [PUTS] && BOTH == [PUTS] + [FORCES];
    assert Arrive(ABSORBED[0], ABSORBED[1]);
    assert MakeRoom(ABSORBED[1], ABSORBED[2]);
    assert Arrive(ABSORBED[2], ABSORBED[3]);
    assert BuildGroup(ABSORBED[3], ABSORBED[4]);
    assert AppendToLog(ABSORBED[4], ABSORBED[5]);
    assert InsertNext(ABSORBED[5], ABSORBED[6]);
    assert FinishGroup(ABSORBED[6], ABSORBED[7]);
    assert Written(ANSWERS, 0) == [] && |Own(ANSWERS[0])| == 1;
  }

  lemma BothUpdates()
    ensures AllUpdates(BOTH, 0) == [] && AllUpdates(BOTH, 1) == AllUpdates(BOTH, 2) == RECORD.updates
  {
    assert AllUpdates(BOTH, 1) == AllUpdates(BOTH, 0) + PUTS.Updates();
  }

  // ---- Two small writes that share a record

  const MORE := Writer(2, Some(WriteBatch([Update(TypeValue, 2.0, "w")], 20)), false)
  const PAIR := [PUTS, MORE]
  const SHARED := Batch(1, [Update(TypeValue, 1.0, "v"), Update(TypeValue, 2.0, "w")])
  const PAIR_ENTRIES := [PUT_ENTRY, Entry(InternalKey(2.0, 2, TypeValue), "w")]
  const PAIR_ANSWERS := [Ack(PUTS, 1, 1, true, 0), Ack(MORE, 2, 1, true, 0)]

  const GROUPED: seq<State> := [
    State([], [], [], Quiet, 0, [], {}, [], {}, NO_ROOM, []),
    State([PUTS], [PUTS], [], Quiet, 0, [], {}, [], {}, NO_ROOM, []),
    State(PAIR, PAIR, [], Quiet, 0, [], {}, [], {}, NO_ROOM, []),
    State(PAIR, PAIR, [], MakingRoom, 0, [], {}, [], {}, NO_ROOM, []),
    State(PAIR, PAIR, [], Committing(1, false, false, 0, false), 0, [], {}, [], {}, NO_ROOM, []),
    State(PAIR, PAIR, [], Committing(1, true, false, 0, false), 0, [SHARED], {}, [], {}, NO_ROOM, []),
    State(PAIR, PAIR, [], Committing(1, true, false, 1, false), 0, [SHARED], {}, [PUT_ENTRY], {}, NO_ROOM, []),
    State(PAIR, PAIR, [], Committing(1, true, false, 2, false), 0, [SHARED], {}, PAIR_ENTRIES, {}, NO_ROOM, []),
    State(PAIR, [], PAIR_ANSWERS, Quiet, 2, [SHARED], {}, PAIR_ENTRIES, {}, NO_ROOM, SERVICES)]

  /** The queue forms one group, and no smaller one: both writes are in one log record. */
  lemma TwoWritesShareARecord()
    ensures Run(GROUPED) && |GROUPED| == 9 && |GROUPED[8].log| == 1 && |GROUPED[8].finished| == 2
    ensures IsGroup(PAIR, 1) && !IsGroup(PAIR, 0)
  {
    PairUpdates();
    assert [PUTS] == [] + [PUTS] && PAIR == [PUTS] + [MORE];
    assert TotalSize(PAIR, 0) == 0 && TotalSize(PAIR, 1) == 20 && TotalSize(PAIR, 2) == 40;
    assert MayJoin(PAIR, 1);
    assert Arrive(GROUPED[0], GROUPED[1]);
    assert Arrive(GROUPED[1], GROUPED[2]);
    assert MakeRoom(GROUPED[2], GROUPED[3]);
    assert BuildGroup(GROUPED[3], GROUPED[4]);
    PairIsWritten();
  }

  lemma PairIsWritten()
    ensures forall i :: 4 < i <= 8 ==> Step(GROUPED[i - 1], GROUPED[i])
  {
    PairUpdates();
    assert AppendToLog(GROUPED[4], GROUPED[5]);
    assert InsertNext(GROUPED[5], GROUPED[6]);
    assert InsertNext(GROUPED[6], GROUPED[7]);
    assert FinishGroup(GROUPED[7], GROUPED[8]);
  }

  lemma PairUpdates()
    ensures AllUpdates(PAIR, 0) == [] && AllUpdates(PAIR, 1) == PUTS.Updates() && AllUpdates(PAIR, 2) == SHARED.updates
  {
    assert AllUpdates(PAIR, 1) == AllUpdates(PAIR, 0) + PUTS.Updates();
    assert AllUpdates(PAIR, 2) == AllUpdates(PAIR, 1) + MORE.Updates();
  }
}
