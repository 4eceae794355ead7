/** The edits that flushes, compactions and recovery give to the builder, and the versions that
    come of them (db/version_set.cc, db/db_impl.cc). */
module Edits {
  import opened DbFormat
  import opened Versions
  import opened Ranges
  import opened Setup
  import opened Preserve
  import opened Flush
  import opened Recovery
  import opened Builder

  /** What the builder relies on: level 0 is in its order, and a number names one file of a level. */
  ghost predicate Ready(v: Version) {
    && |v| == NUM_LEVELS && Ordered(v[0])
    && forall l, f, g :: 0 <= l < |v| && f in v[l] && g in v[l] && f.number == g.number ==> f == g
  }

  /** The files of the edit are new to their levels, and have numbers of their own. */
  ghost predicate NewFiles(v: Version, edit: FileEdit) {
    && (forall d :: d in edit.deleted ==> d.0 < |v|)
    && (forall a :: a in edit.added ==> a.0 < |v| && forall f :: f in v[a.0] ==> f.number != a.1.number)
    && (forall i, j :: 0 <= i < j < |edit.added| && edit.added[i].0 == edit.added[j].0
          ==> edit.added[i].1.number != edit.added[j].1.number)
  }

  /** Every level of `w` is in the builder's order, with the files that the edit leaves and adds. */
  ghost predicate Edited(v: Version, edit: FileEdit, w: Version) {
    |w| == |v| && forall l :: 0 <= l < |v| ==> Ordered(w[l]) && SetOf(w[l]) == AfterEdit(SetOf(v[l]), edit, l)
  }

  /** The builder's part of LogAndApply. */
  method ApplyEdit(v: Version, edit: FileEdit) returns (w: Version)
    requires VersionOK(v) && Ready(v) && NewFiles(v, edit)
    ensures Edited(v, edit, w) && Ready(w)
  {
    LevelsAreOrdered(v);
    var builder := new Builder(v);
    builder.Apply(edit);
    forall l, f, g | 0 <= l < NUM_LEVELS && f in v[l] && g in builder.levels[l].added
      ensures f.number != g.number
    {
      assert g in SetOf(builder.levels[l].added);
    }
    w := builder.SaveTo();
    forall l | 0 <= l < NUM_LEVELS
      ensures SetOf(w[l]) == AfterEdit(SetOf(v[l]), edit, l)
    {
      AddedAreNew(v, edit, l);
      assert SetOf([]) == {} && Saved(SetOf(v[l]), LevelState({}, [])) == SetOf(v[l]);
      OneMoreEdit(SetOf(v[l]), LevelState({}, []), edit, l, builder.levels[l]);
    }
    StaysReady(v, edit, w);
  }

  lemma LevelsAreOrdered(v: Version)
    requires VersionOK(v) && Ready(v)
    ensures forall l :: 0 <= l < |v| ==> Ordered(v[l])
  {
    forall l | 0 < l < |v|
      ensures Ordered(v[l])
    {
      DisjointIsOrdered(v[l]);
    }
  }

  lemma DisjointIsOrdered(files: seq<File>)
    requires AllWellFormed(files) && Disjoint(files)
    ensures Ordered(files)
  {
    forall i, j | 0 <= i < j < |files|
      ensures ByKey(files[i], files[j])
    {
      var f, g := files[i], files[j];
      assert WellFormed(f) && Before(f.largest, g.smallest);
      EntryWithinFile(f, f.entries[0]);
    }
  }

  lemma AddedAreNew(v: Version, edit: FileEdit, l: nat)
    requires NewFiles(v, edit) && l < |v|
    ensures Numbers(AddedAt(edit, l)) !! Numbers(SetOf(v[l]) + SetOf([]))
  {
  }

  lemma StaysReady(v: Version, edit: FileEdit, w: Version)
    requires Ready(v) && NewFiles(v, edit) && Edited(v, edit, w)
    ensures Ready(w)
  {
    forall l, f, g | 0 <= l < |w| && f in w[l] && g in w[l] && f.number == g.number
      ensures f == g
    {
      assert f in SetOf(w[l]) && g in SetOf(w[l]);
    }
  }

  /** Two lists in the builder's order with the same files are the same. */
  lemma {:induction false} OrderedIsUnique(a: seq<File>, b: seq<File>)
    requires Ordered(a) && Ordered(b) && SetOf(a) == SetOf(b)
    ensures a == b
  {
    SomeFile(a);
    SomeFile(b);
    if a != [] {
      var x, y := a[|a| - 1], b[|b| - 1];
      assert x in SetOf(b) && y in SetOf(a);
      assert x == y;
      ButLast(a);
      ButLast(b);
      OrderedIsUnique(a[..|a| - 1], b[..|b| - 1]);
      assert a == a[..|a| - 1] + [x] && b == b[..|b| - 1] + [y];
    }
  }

  lemma SomeFile(a: seq<File>)
    ensures a == [] <==> SetOf(a) == {}
  {
    if a != [] {
      assert a[0] in SetOf(a);
    }
  }

  lemma ButLast(a: seq<File>)
    requires Ordered(a) && a != []
    ensures SetOf(a[..|a| - 1]) == SetOf(a) - {a[|a| - 1]}
  {
    assert a == a[..|a| - 1] + [a[|a| - 1]];
  }

  lemma {:induction false} WithoutKeepsOrder(files: seq<File>, removed: seq<File>)
    requires Ordered(files)
    ensures Ordered(Without(files, removed))
  {
    if files != [] {
      var n := |files| - 1;
      WithoutKeepsOrder(files[..n], removed);
      WithoutMembers(files[..n], removed);
      forall f | f in Without(files[..n], removed)
        ensures ByKey(f, files[n])
      {
        assert f in files[..n];
      }
    }
  }

  // ---- A flush

  function FlushEdit(level: nat, f: File): FileEdit {
    FileEdit([], [(level, f)])
  }

  /** A flushed memtable's edit gives the version with its table added. */
  lemma FlushEditAdds(v: Version, level: nat, f: File, w: Version)
    requires VersionOK(v) && Ready(v) && FreshTable(v, level, f) && Edited(v, FlushEdit(level, f), w)
    ensures NewFiles(v, FlushEdit(level, f)) && Added(v, level, f, w)
  {
    var edit := FlushEdit(level, f);
    LevelsAreOrdered(v);
    forall l | 0 <= l < |v|
      ensures AddedAt(edit, l) == if l == level then {f} else {}
      ensures DeletedAt(edit, l) == {}
    {
      assert edit.added[0] == (level, f);
    }
    forall l | 0 <= l < |v| && l != level
      ensures w[l] == v[l]
    {
      assert AfterEdit(SetOf(v[l]), edit, l) == SetOf(v[l]);
      OrderedIsUnique(w[l], v[l]);
    }
    forall g
      ensures g in w[level] <==> g in v[level] || g == f
    {
      assert g in w[level] <==> g in SetOf(w[level]);
    }
    OrderedInKeyOrder(w[level]);
  }

  // ---- A compaction

  function Pairs<T>(level: nat, items: seq<T>): seq<(nat, T)> {
    seq(|items|, i requires 0 <= i < |items| => (level, items[i]))
  }

  function NumbersOf(files: seq<File>): seq<nat> {
    seq(|files|, i requires 0 <= i < |files| => files[i].number)
  }

  /** AddInputDeletions and InstallCompactionResults. */
  function CompactionEdit(c: Compaction, outs: seq<File>): FileEdit {
    FileEdit(Pairs(c.level, NumbersOf(c.inputs0)) + Pairs(c.level + 1, NumbersOf(c.inputs1)), Pairs(c.level + 1, outs))
  }

  lemma CompactionChanges(c: Compaction, outs: seq<File>, l: nat)
    ensures AddedAt(CompactionEdit(c, outs), l) == if l == c.level + 1 then SetOf(outs) else {}
    ensures DeletedAt(CompactionEdit(c, outs), l)
         == if l == c.level then Numbers(SetOf(c.inputs0)) else if l == c.level + 1 then Numbers(SetOf(c.inputs1)) else {}
  {
    var edit := CompactionEdit(c, outs);
    PairsAt(c.level + 1, outs, l);
    PairsAt(c.level, NumbersOf(c.inputs0), l);
    PairsAt(c.level + 1, NumbersOf(c.inputs1), l);
    NumbersOfSet(c.inputs0);
    NumbersOfSet(c.inputs1);
    var d0, d1 := Pairs(c.level, NumbersOf(c.inputs0)), Pairs(c.level + 1, NumbersOf(c.inputs1));
    assert DeletedAt(edit, l) == (set d | d in d0 && d.0 == l :: d.1) + (set d | d in d1 && d.0 == l :: d.1);
  }

  lemma PairsAt<T>(level: nat, items: seq<T>, l: nat)
    ensures (set p | p in Pairs(level, items) && p.0 == l :: p.1) == if l == level then set x | x in items else {}
  {
    forall x | x in items
      ensures (level, x) in Pairs(level, items)
    {
      var i :| 0 <= i < |items| && items[i] == x;
      assert Pairs(level, items)[i] == (level, x);
    }
  }

  lemma NumbersOfSet(files: seq<File>)
    ensures (set n | n in NumbersOf(files)) == Numbers(SetOf(files))
  {
    forall f | f in files
      ensures f.number in NumbersOf(files)
    {
      var i :| 0 <= i < |files| && files[i] == f;
      assert NumbersOf(files)[i] == f.number;
    }
  }

  /** A compaction's edit gives the version with its inputs replaced by its outputs. */
  lemma CompactionEditInstalls(v: Version, c: Compaction, outs: seq<File>, w: Version)
    requires VersionOK(v) && Ready(v) && InputsClosed(v, c)
    requires NewFiles(v, CompactionEdit(c, outs)) && Edited(v, CompactionEdit(c, outs), w)
    ensures Installed(v, c, outs, w)
  {
    var edit := CompactionEdit(c, outs);
    LevelsAreOrdered(v);
    forall l | 0 <= l < |v|
      ensures SetOf(w[l]) == SetOf(Staying(v, c, l)) + if l == c.level + 1 then SetOf(outs) else {}
    {
      CompactionChanges(c, outs, l);
      WithoutMembers(v[l], c.inputs0);
      WithoutMembers(v[l], c.inputs1);
      RemovedByNumber(v, c, outs, l);
    }
    forall l | 0 <= l < |v| && l != c.level + 1
      ensures w[l] == Staying(v, c, l)
    {
      WithoutKeepsOrder(v[l], c.inputs0);
      OrderedIsUnique(w[l], Staying(v, c, l));
    }
    forall f
      ensures f in w[c.level + 1] <==> f in Staying(v, c, c.level + 1) || f in outs
    {
      assert f in w[c.level + 1] <==> f in SetOf(w[c.level + 1]);
    }
    OrderedInKeyOrder(w[c.level + 1]);
  }

  /** Deleting by number removes just the inputs. */
  lemma RemovedByNumber(v: Version, c: Compaction, outs: seq<File>, l: nat)
    requires Ready(v) && InputsClosed(v, c) && NewFiles(v, CompactionEdit(c, outs)) && l < |v|
    ensures forall f :: f in v[l] ==>
      (f.number in DeletedAt(CompactionEdit(c, outs), l) - Numbers(AddedAt(CompactionEdit(c, outs), l)) <==> f !in Staying(v, c, l))
  {
    var edit := CompactionEdit(c, outs);
    CompactionChanges(c, outs, l);
    WithoutMembers(v[l], c.inputs0);
    WithoutMembers(v[l], c.inputs1);
    AddedAreNew(v, edit, l);
    forall f | f in v[l]
      ensures f.number in DeletedAt(edit, l) <==> f !in Staying(v, c, l)
      ensures f.number !in Numbers(AddedAt(edit, l))
    {
      assert f.number in Numbers(SetOf(v[l]) + SetOf([]));
    }
  }

  // ---- Recovery

  function RecoveryEdit(tables: seq<File>): FileEdit {
    FileEdit([], Pairs(0, tables))
  }

  /** The edit of the replayed logs gives the version with their tables in level 0. */
  lemma RecoveryEditJoins(v: Version, tables: seq<File>, w: Version)
    requires VersionOK(v) && Ready(v) && NewFiles(v, RecoveryEdit(tables)) && Edited(v, RecoveryEdit(tables), w)
    ensures Joined(v, tables, w)
  {
    var edit := RecoveryEdit(tables);
    LevelsAreOrdered(v);
    forall l | 0 <= l < |v|
      ensures AddedAt(edit, l) == (if l == 0 then SetOf(tables) else {}) && DeletedAt(edit, l) == {}
    {
      PairsAt(0, tables, l);
    }
    forall l | 0 < l < |v|
      ensures w[l] == v[l]
    {
      assert AfterEdit(SetOf(v[l]), edit, l) == SetOf(v[l]);
      OrderedIsUnique(w[l], v[l]);
    }
    forall f
      ensures f in w[0] <==> f in v[0] || f in tables
    {
      assert f in w[0] <==> f in SetOf(w[0]);
    }
    OrderedInKeyOrder(w[0]);
  }
}
