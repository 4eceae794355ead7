/** Runs in which every compaction's inputs end cleanly when they are picked: no compaction
    resurrects a key, so the results about reads hold without a further assumption. */
module CleanRuns {
  import opened DbFormat
  import opened Versions
  import opened Setup
  import opened Lookup
  import opened Preserve
  import opened Flush
  import opened Store
  import opened Resurrection
  import Durability
  import Recovery

  /** The step does not pick inputs of the output level that end within a user key. */
  ghost predicate PicksCleanly(db: Db, db': Db) {
    BeginCompaction(db, db') ==> CleanlyCut(db'.current, db'.job.value.c)
  }

  ghost predicate JobIsClean(db: Db) {
    db.job.Some? ==> CleanlyCut(db.current, db.job.value.c)
  }

  /** A table that is flushed while the compaction runs does not start where an input ends. */
  lemma FlushStaysClean(v: Version, level: nat, f: File, w: Version, c: Compaction)
    requires VersionOK(v) && FreshTable(v, level, f) && Added(v, level, f, w)
    requires InputsClosed(v, c) && Covered(c.Inputs()) && CleanlyCut(v, c)
    ensures CleanlyCut(w, c)
  {
    if level == c.level + 1 {
      AddedBesideInputs(v, level, f, c);
    }
  }

  lemma CleanIsFaithful(db: Db, db': Db)
    requires Inv(db) && JobIsClean(db)
    ensures Faithful(db, db')
  {
    if InstallCompaction(db, db') {
      forall user
        ensures !Resurrects(db.current, db.job.value.c, db.job.value.smallest, user)
      {
        CleanCutPreventsResurrection(db.current, db.job.value.c, db.job.value.smallest, user);
      }
    }
  }

  lemma StepStaysClean(db: Db, db': Db)
    requires Inv(db) && JobIsClean(db) && Step(db, db') && PicksCleanly(db, db')
    ensures JobIsClean(db')
  {
    if db'.job.Some? && FlushMemTable(db, db') && db'.current != db.current {
      var level: nat, f: File :|
        && f.entries == db.imm.value && NumbersBelow(db.current, f.number) && f.number < db.nextNumber
        && WellFormed(f) && level <= MAX_MEM_COMPACT_LEVEL
        && (level > 0 ==> ClearDownTo(db.current, level, f.smallest.user, f.largest.user))
        && Added(db.current, level, f, db'.current);
      FlushIsFresh(db, level, f);
      FlushStaysClean(db.current, level, f, db'.current, db.job.value.c);
    }
  }

  // ---- Runs of the store

  ghost predicate CleanRun(run: seq<Db>) {
    Store.Run(run) && forall i :: 0 < i < |run| ==> PicksCleanly(run[i - 1], run[i])
  }

  lemma {:induction false} ReachableClean(run: seq<Db>, i: nat)
    requires CleanRun(run) && i < |run|
    ensures Inv(run[i]) && JobIsClean(run[i])
  {
    ReachableInv(run, i);
    if i > 0 {
      ReachableClean(run, i - 1);
      StepStaysClean(run[i - 1], run[i]);
    }
  }

  /** A snapshot reads the same values for as long as it is held. */
  lemma SnapshotsReadTheSame(run: seq<Db>, i: nat, j: nat, snap: SequenceNumber, user: UserKey)
    requires CleanRun(run) && i <= j < |run| && forall k :: i <= k <= j ==> snap in run[k].snapshots
    ensures Read(All(run[i]), user, snap) == Read(All(run[j]), user, snap)
  {
    forall k | i < k <= j
      ensures Faithful(run[k - 1], run[k])
    {
      ReachableClean(run, k - 1);
      CleanIsFaithful(run[k - 1], run[k]);
    }
    SnapshotReadsAreStable(run, i, j, snap, user);
  }

  // ---- Runs with crashes

  ghost predicate SysPicksCleanly(s: Durability.Sys, s': Durability.Sys) {
    s.Running? && s'.Running? ==> PicksCleanly(s.state.db, s'.state.db)
  }

  ghost predicate CleanSysRun(run: seq<Durability.Sys>) {
    && run != [] && Durability.Init(run[0])
    && forall i :: 0 < i < |run| ==> Durability.SysStep(run[i - 1], run[i]) && SysPicksCleanly(run[i - 1], run[i])
  }

  ghost predicate SysIsClean(s: Durability.Sys) {
    s.Running? ==> JobIsClean(s.state.db)
  }

  lemma CleanEditIsFaithful(s: Durability.State)
    requires Durability.StateInv(s) && JobIsClean(s.db)
    ensures Durability.FaithfulEdit(s)
  {
    if s.bg.Editing? {
      CleanIsFaithful(s.db, Durability.Edited(s.db, s.bg));
    }
  }

  lemma EditStaysClean(s: Durability.State)
    requires Durability.StateInv(s) && JobIsClean(s.db) && s.bg.Editing?
    ensures JobIsClean(Durability.Edited(s.db, s.bg))
  {
    if s.bg.flush {
      StepStaysClean(s.db, Durability.Edited(s.db, s.bg));
    }
  }

  lemma StateStepStaysClean(s: Durability.State, s': Durability.State)
    requires Durability.StateInv(s) && JobIsClean(s.db) && Durability.Step(s, s') && PicksCleanly(s.db, s'.db)
    ensures JobIsClean(s'.db)
  {
    hide Durability.StateInv, Durability.TableAdded, Durability.CompactionInstalls, CleanlyCut, InputsClosed, Covered, Sorted;
    if Durability.InstallEdit(s, s') {
      EditStaysClean(s);
    }
  }

  lemma SysStepStaysClean(s: Durability.Sys, s': Durability.Sys)
    requires Durability.SysInv(s) && SysIsClean(s) && Durability.SysStep(s, s') && SysPicksCleanly(s, s')
    ensures SysIsClean(s')
  {
    if s.Running? && s'.Running? {
      StateStepStaysClean(s.state, s'.state);
    }
  }

  /** Every run that picks cleanly is a run as the crash results require it. */
  lemma {:induction false} CleanSysRunIsRun(run: seq<Durability.Sys>, i: nat)
    requires CleanSysRun(run) && i < |run|
    ensures Durability.Run(run[..i + 1]) && Durability.SysInv(run[i]) && SysIsClean(run[i])
  {
    hide Durability.SysInv, Durability.SysStep, Durability.StateInv, Durability.FaithfulEdit, JobIsClean;
    var prefix := run[..i + 1];
    if i == 0 {
      Durability.InitKeepsSysInv(run[0]);
    } else {
      CleanSysRunIsRun(run, i - 1);
      assert forall k :: 0 <= k < i ==> prefix[k] == run[..i][k];
      SysStepKeepsInv(run[i - 1], run[i]);
      SysStepStaysClean(run[i - 1], run[i]);
    }
    SysIsFaithful(run[i]);
  }

  lemma SysIsFaithful(s: Durability.Sys)
    requires Durability.SysInv(s) && SysIsClean(s)
    ensures s.Running? ==> Durability.FaithfulEdit(s.state)
  {
    if s.Running? {
      CleanEditIsFaithful(s.state);
    }
  }

  lemma SysStepKeepsInv(s: Durability.Sys, s': Durability.Sys)
    requires Durability.SysInv(s) && SysIsClean(s) && Durability.SysStep(s, s')
    ensures Durability.SysInv(s')
  {
    match s
    case Running(state) =>
      CleanEditIsFaithful(state);
      if Durability.Crash(state, s') {
        Durability.CrashStep(state);
      } else {
        Durability.StepKeepsStateInv(state, s'.state);
      }
    case Down(d, history) =>
      if s'.Running? {
        Durability.OpenStep(d, history, s'.state);
      } else {
        Durability.CreateLogStep(d, s'.disk, history);
      }
  }

  /** With clean picks, every read in every reachable running state is the read of all batches ever
      acknowledged, whatever crashes came before. */
  lemma ReadsSurviveCrashes(run: seq<Durability.Sys>, i: nat, user: UserKey, snap: SequenceNumber)
    requires CleanSysRun(run) && i < |run| && run[i].Running? && Oldest(run[i].state.db) <= snap
    ensures Read(All(run[i].state.db), user, snap) == Read(Recovery.Union(Durability.History(run[i])), user, snap)
    ensures forall b :: b in Durability.History(run[i]) ==> b.Next() <= run[i].state.db.lastSequence + 1
  {
    CleanSysRunIsRun(run, i);
    assert run[..i + 1][i] == run[i];
    Durability.EveryReadIsOfTheHistory(run[..i + 1], i, user, snap);
  }
}
