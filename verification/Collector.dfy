/** Removal of obsolete table files while readers hold versions and the background thread builds
    tables (RemoveObsoleteFiles, MaybeScheduleCompaction, db/db_impl.cc). A version is the set of
    the numbers of its files. */
module Collector {

  type Files = set<nat>

  /** What a background job is doing. `Ready` is between two operations. */
  datatype Phase =
    | Posted
    | Ready
    | Building(number: nat)                   // WriteLevel0Table with the mutex released
    | Applying(next: Files, flush: bool)      // LogAndApply with the mutex released
    | Collecting(todo: Files)                 // RemoveObsoleteFiles with the mutex released

  /** `outputs` are the files that a running compaction has opened, if there is one. */
  datatype Job = Job(phase: Phase, compacting: bool, outputs: Files)

  /** `held` are the versions that readers, iterators and compactions refer to; `uncertain` holds
      the files of edits whose manifest write failed. */
  datatype State = State(onDisk: Files, current: Files, held: seq<Files>, pending: Files, nextNumber: nat,
                         jobs: seq<Job>, scheduled: bool, failed: bool, uncertain: Files)

  ghost predicate Init(s: State) {
    && s.held == [] && s.pending == {} && s.jobs == [] && !s.scheduled && !s.failed && s.uncertain == {}
    && s.current <= s.onDisk && forall n :: n in s.current ==> n < s.nextNumber
  }

  // ---- Readers

  ghost predicate Hold(s: State, s': State) {
    s' == s.(held := s.held + [s.current])
  }

  ghost predicate Release(s: State, s': State) {
    exists i :: 0 <= i < |s.held| && s' == s.(held := s.held[..i] + s.held[i + 1..])
  }

  // ---- Scheduling

  /** MaybeScheduleCompaction, called with the mutex held by writers and at the end of a job. */
  ghost predicate MaybeSchedule(s: State, s': State) {
    && !s.scheduled && !s.failed
    && s' == s.(scheduled := true, jobs := s.jobs + [Job(Posted, false, {})])
  }

  ghost predicate InPhase(s: State, i: nat) {
    i < |s.jobs| && s.jobs[i].phase.Ready?
  }

  /** `s'` differs from `s` in job `i`, and in other fields as given by `t`. */
  function WithJob(t: State, i: nat, job: Job): State
    requires i < |t.jobs|
  {
    t.(jobs := t.jobs[i := job])
  }

  ghost predicate StartJob(s: State, s': State) {
    exists i: nat :: i < |s.jobs| && s.jobs[i].phase.Posted? && s' == WithJob(s, i, s.jobs[i].(phase := Ready))
  }

  /** The job ends; a later MaybeSchedule may post another. */
  ghost predicate EndJob(s: State, s': State) {
    exists i: nat :: InPhase(s, i) && !s.jobs[i].compacting
      && s' == s.(jobs := s.jobs[..i] + s.jobs[i + 1..], scheduled := false)
  }

  // ---- Flushes, also in the middle of a compaction

  ghost predicate StartTable(s: State, s': State) {
    exists i: nat :: InPhase(s, i)
      && s' == WithJob(s.(pending := s.pending + {s.nextNumber}, nextNumber := s.nextNumber + 1), i,
                       s.jobs[i].(phase := Building(s.nextNumber)))
  }

  /** The table is complete. It leaves the pending outputs before LogAndApply makes it part of a
      version; an empty memtable leaves no table. */
  ghost predicate FinishTable(s: State, s': State) {
    exists i: nat, empty: bool :: i < |s.jobs| && s.jobs[i].phase.Building? && TableFinished(s, s', i, empty)
  }

  ghost predicate TableFinished(s: State, s': State, i: nat, empty: bool)
    requires i < |s.jobs| && s.jobs[i].phase.Building?
  {
    var added := if empty then {} else {s.jobs[i].phase.number};
    s' == WithJob(s.(pending := s.pending - {s.jobs[i].phase.number}, onDisk := s.onDisk + added), i,
                  s.jobs[i].(phase := Applying(s.current + added, true)))
  }

  ghost predicate TableFails(s: State, s': State) {
    exists i: nat :: i < |s.jobs| && s.jobs[i].phase.Building?
      && s' == WithJob(s.(pending := s.pending - {s.jobs[i].phase.number}, failed := true), i, s.jobs[i].(phase := Ready))
  }

  // ---- Compactions

  /** The compaction refers to its input version from here on. */
  ghost predicate StartCompaction(s: State, s': State) {
    exists i: nat :: InPhase(s, i) && !s.jobs[i].compacting
      && s' == WithJob(s.(held := s.held + [s.current]), i, s.jobs[i].(compacting := true))
  }

  ghost predicate OpenOutput(s: State, s': State) {
    exists i: nat :: InPhase(s, i) && s.jobs[i].compacting
      && s' == WithJob(s.(pending := s.pending + {s.nextNumber}, onDisk := s.onDisk + {s.nextNumber}, nextNumber := s.nextNumber + 1),
                       i, s.jobs[i].(outputs := s.jobs[i].outputs + {s.nextNumber}))
  }

  /** InstallCompactionResults, or a trivial move, which has no outputs and changes only a level. */
  ghost predicate ApplyCompaction(s: State, s': State) {
    exists i: nat, inputs: Files :: InPhase(s, i) && OutputsApplied(s, s', i, inputs)
  }

  ghost predicate OutputsApplied(s: State, s': State, i: nat, inputs: Files)
    requires InPhase(s, i)
  {
    s' == WithJob(s, i, s.jobs[i].(phase := Applying(s.current - inputs + s.jobs[i].outputs, false)))
  }

  /** The manifest record is written: the new version becomes current. */
  ghost predicate Install(s: State, s': State) {
    exists i: nat :: i < |s.jobs| && s.jobs[i].phase.Applying?
      && s' == WithJob(s.(current := s.jobs[i].phase.next), i, s.jobs[i].(phase := Ready))
  }

  /** The manifest write fails: nobody knows whether the edit counts. */
  ghost predicate ApplyFails(s: State, s': State) {
    exists i: nat :: i < |s.jobs| && s.jobs[i].phase.Applying?
      && s' == WithJob(s.(failed := true, uncertain := s.uncertain + s.jobs[i].phase.next), i, s.jobs[i].(phase := Ready))
  }

  /** CleanupCompaction, after success or failure. */
  ghost predicate EndCompaction(s: State, s': State) {
    exists i: nat, held: seq<Files> :: InPhase(s, i) && s.jobs[i].compacting && (forall v :: v in held ==> v in s.held)
      && s' == WithJob(s.(pending := s.pending - s.jobs[i].outputs, held := held), i, Job(Ready, false, {}))
  }

  // ---- Collecting

  function LiveFiles(current: Files, held: seq<Files>): Files {
    current + set v, n | v in held && n in v :: n
  }

  /** RemoveObsoleteFiles: everything on disk that is neither pending nor in a live version. */
  ghost predicate StartCollecting(s: State, s': State) {
    exists i: nat :: InPhase(s, i) && !s.failed
      && s' == WithJob(s, i, s.jobs[i].(phase := Collecting(s.onDisk - s.pending - LiveFiles(s.current, s.held))))
  }

  ghost predicate RemoveFile(s: State, s': State) {
    exists i: nat, n: nat :: i < |s.jobs| && s.jobs[i].phase.Collecting? && n in s.jobs[i].phase.todo && Removed(s, s', i, n)
  }

  ghost predicate Removed(s: State, s': State, i: nat, n: nat)
    requires i < |s.jobs| && s.jobs[i].phase.Collecting?
  {
    s' == WithJob(s.(onDisk := s.onDisk - {n}), i, s.jobs[i].(phase := Collecting(s.jobs[i].phase.todo - {n})))
  }

  ghost predicate EndCollecting(s: State, s': State) {
    exists i: nat :: i < |s.jobs| && s.jobs[i].phase.Collecting? && s' == WithJob(s, i, s.jobs[i].(phase := Ready))
  }

  /** A writer's sync fails: no more collecting from now on. */
  ghost predicate WriterFails(s: State, s': State) {
    s' == s.(failed := true)
  }

  ghost predicate Step(s: State, s': State) {
    || Hold(s, s') || Release(s, s') || MaybeSchedule(s, s') || StartJob(s, s') || EndJob(s, s')
    || StartTable(s, s') || FinishTable(s, s') || TableFails(s, s') || StartCompaction(s, s') || OpenOutput(s, s')
    || ApplyCompaction(s, s') || Install(s, s') || ApplyFails(s, s') || EndCompaction(s, s')
    || StartCollecting(s, s') || RemoveFile(s, s') || EndCollecting(s, s') || WriterFails(s, s')
  }

  // ---- The invariant

  /** What a job needs: the outputs of its compaction, and the version it is about to install. */
  function JobNeeds(job: Job): Files {
    job.outputs + if job.phase.Applying? then job.phase.next else {}
  }

  /** Files that must not be deleted: those of live versions, of the version about to be installed,
      of a running compaction, and those that a failed edit may have made live. */
  function Needed(s: State): Files {
    LiveFiles(s.current, s.held) + s.uncertain + if s.jobs == [] then {} else JobNeeds(s.jobs[0])
  }

  ghost predicate JobOK(s: State, job: Job) {
    && job.outputs <= s.pending && (!job.compacting ==> job.outputs == {}) && (job.phase.Posted? ==> !job.compacting)
    && (job.phase.Building? ==> job.phase.number in s.pending && job.phase.number !in job.outputs)
    && (job.phase.Collecting? ==> job.phase.todo !! Needed(s) && job.phase.todo !! s.pending && s.uncertain == {})
  }

  ghost predicate Below(files: Files, n: nat) {
    forall k :: k in files ==> k < n
  }

  /** At most one background job; every needed file is on disk; a collector removes none of them. */
  ghost predicate Inv(s: State) {
    && |s.jobs| == (if s.scheduled then 1 else 0)
    && Needed(s) <= s.onDisk && Below(Needed(s), s.nextNumber) && Below(s.pending, s.nextNumber)
    && (s.jobs != [] ==> JobOK(s, s.jobs[0])) && (s.uncertain != {} ==> s.failed)
  }

  lemma HeldIsLive(current: Files, held: seq<Files>, more: seq<Files>)
    requires forall v :: v in more ==> v in held || v == current
    ensures LiveFiles(current, more) <= LiveFiles(current, held)
  {
  }

  lemma ReaderStep(s: State, s': State)
    requires Inv(s) && (Hold(s, s') || Release(s, s') || MaybeSchedule(s, s') || WriterFails(s, s'))
    ensures Inv(s')
  {
    HeldIsLive(s.current, s.held, s'.held);
    assert Needed(s') <= Needed(s);
  }

  lemma JobStep(s: State, s': State)
    requires Inv(s) && (StartJob(s, s') || EndJob(s, s') || EndCollecting(s, s'))
    ensures Inv(s')
  {
    assert Needed(s') <= Needed(s);
  }

  lemma FlushStep(s: State, s': State)
    requires Inv(s) && (StartTable(s, s') || FinishTable(s, s') || TableFails(s, s'))
    ensures Inv(s')
  {
    if FinishTable(s, s') {
      var i: nat, empty: bool :| i < |s.jobs| && s.jobs[i].phase.Building? && TableFinished(s, s', i, empty);
      assert i == 0;
      assert Needed(s') <= Needed(s) + {s.jobs[0].phase.number};
    } else {
      assert Needed(s') == Needed(s);
    }
  }

  lemma CompactionStep(s: State, s': State)
    requires Inv(s)
    requires StartCompaction(s, s') || OpenOutput(s, s') || ApplyCompaction(s, s') || EndCompaction(s, s')
    ensures Inv(s')
  {
    HeldIsLive(s.current, s.held, s'.held);
    if OpenOutput(s, s') {
      assert Needed(s') <= Needed(s) + {s.nextNumber};
    } else {
      assert Needed(s') <= Needed(s);
    }
  }

  lemma ApplyStep(s: State, s': State)
    requires Inv(s) && (Install(s, s') || ApplyFails(s, s'))
    ensures Inv(s')
  {
    assert Needed(s') <= Needed(s);
  }

  lemma CollectStep(s: State, s': State)
    requires Inv(s) && (StartCollecting(s, s') || RemoveFile(s, s'))
    ensures Inv(s')
  {
    assert Needed(s') == Needed(s);
  }

  lemma StepKeepsInv(s: State, s': State)
    requires Inv(s) && Step(s, s')
    ensures Inv(s')
  {
    if Hold(s, s') || Release(s, s') || MaybeSchedule(s, s') || WriterFails(s, s') {
      ReaderStep(s, s');
    } else if StartJob(s, s') || EndJob(s, s') || EndCollecting(s, s') {
      JobStep(s, s');
    } else if StartTable(s, s') || FinishTable(s, s') || TableFails(s, s') {
      FlushStep(s, s');
    } else if Install(s, s') || ApplyFails(s, s') {
      ApplyStep(s, s');
    } else if StartCollecting(s, s') || RemoveFile(s, s') {
      CollectStep(s, s');
    } else {
      CompactionStep(s, s');
    }
  }

  // ---- Runs

  ghost predicate Run(run: seq<State>) {
    run != [] && Init(run[0]) && forall i :: 0 < i < |run| ==> Step(run[i - 1], run[i])
  }

  lemma {:induction false} ReachableInv(run: seq<State>, i: nat)
    requires Run(run) && i < |run|
    ensures Inv(run[i])
  {
    if i == 0 {
      assert Needed(run[0]) == run[0].current;
    } else {
      ReachableInv(run, i - 1);
      StepKeepsInv(run[i - 1], run[i]);
    }
  }

  /** No table of a live version, of a running compaction, of the version about to be installed, or
      of a version that may have been committed is ever missing; and at most one job runs. */
  lemma NoNeededFileIsDeleted(run: seq<State>, i: nat)
    requires Run(run) && i < |run|
    ensures |run[i].jobs| <= 1 && LiveFiles(run[i].current, run[i].held) + run[i].uncertain <= run[i].onDisk
    ensures forall job :: job in run[i].jobs ==> JobNeeds(job) <= run[i].onDisk
  {
    ReachableInv(run, i);
  }

  // ---- What is collected

  ghost predicate IsCollecting(s: State) {
    |s.jobs| == 1 && s.jobs[0].phase.Collecting?
  }

  /** Between the states at `a` and `b` the job does nothing but collect. */
  ghost predicate CollectsThrough(run: seq<State>, a: nat, b: nat) {
    a < b < |run| && StartCollecting(run[a], run[a + 1]) && forall j :: a < j <= b ==> IsCollecting(run[j])
  }

  /** What has gone is what was to go and is no longer to go. */
  lemma {:induction false} RemovedSoFar(run: seq<State>, a: nat, b: nat)
    requires Run(run) && CollectsThrough(run, a, b)
    ensures var todo := run[a].onDisk - run[a].pending - LiveFiles(run[a].current, run[a].held);
      run[b].jobs[0].phase.todo <= todo && run[b].onDisk == run[a].onDisk - (todo - run[b].jobs[0].phase.todo)
    decreases b
  {
    ReachableInv(run, a);
    assert IsCollecting(run[b]) && IsCollecting(run[a + 1]);
    if a + 1 < b {
      var c := b - 1;
      RemovedSoFar(run, a, c);
      ReachableInv(run, c);
      assert IsCollecting(run[c]) && Step(run[c], run[c + 1]);
      CollectorAlone(run[c], run[b]);
    }
  }

  /** While the job collects, only readers and failing writers come between its removals. */
  lemma CollectorAlone(s: State, s': State)
    requires Inv(s) && Step(s, s') && IsCollecting(s) && IsCollecting(s')
    ensures s'.jobs[0].phase.todo <= s.jobs[0].phase.todo
    ensures s'.onDisk == s.onDisk - (s.jobs[0].phase.todo - s'.jobs[0].phase.todo)
    ensures s'.pending == s.pending && s'.current == s.current
  {
  }

  /** Once nothing is left to remove, what is on disk is what was pending or live when the collecting began. */
  lemma CollectedIsGone(run: seq<State>, a: nat, b: nat)
    requires Run(run) && CollectsThrough(run, a, b) && run[b].jobs[0].phase.todo == {}
    ensures run[b].onDisk == run[a].onDisk * (run[a].pending + LiveFiles(run[a].current, run[a].held))
  {
    RemovedSoFar(run, a, b);
  }
}
