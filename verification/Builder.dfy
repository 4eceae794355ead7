/** VersionSet::Builder: applying edits to a version (db/version_set.cc). */
module Builder {
  import opened DbFormat
  import opened Versions
  import opened Preserve

  /** The part of a VersionEdit that Builder::Apply uses; a file is given with its level. */
  datatype FileEdit = FileEdit(deleted: seq<(nat, nat)>, added: seq<(nat, File)>)

  datatype LevelState = LevelState(deleted: set<nat>, added: seq<File>)

  /** BySmallestKey. */
  predicate ByKey(f: File, g: File) {
    Less(f.smallest, g.smallest) || (!Less(g.smallest, f.smallest) && f.number < g.number)
  }

  ghost predicate Ordered(files: seq<File>) {
    forall i, j :: 0 <= i < j < |files| ==> ByKey(files[i], files[j])
  }

  lemma OrderedInKeyOrder(files: seq<File>)
    requires Ordered(files)
    ensures InKeyOrder(files)
  {
  }

  ghost function DeletedAt(edit: FileEdit, level: nat): set<nat> {
    set d | d in edit.deleted && d.0 == level :: d.1
  }

  ghost function AddedAt(edit: FileEdit, level: nat): set<File> {
    set a | a in edit.added && a.0 == level :: a.1
  }

  ghost function Numbers(files: set<File>): set<nat> {
    set f | f in files :: f.number
  }

  function SetOf(files: seq<File>): set<File> {
    set f | f in files
  }

  /** What one edit makes of the files of a level. */
  ghost function AfterEdit(files: set<File>, edit: FileEdit, level: nat): set<File> {
    (set f | f in files && f.number !in DeletedAt(edit, level) - Numbers(AddedAt(edit, level)))
    + AddedAt(edit, level)
  }

  ghost function AfterEdits(files: set<File>, edits: seq<FileEdit>, level: nat): set<File> {
    if edits == [] then files
    else AfterEdit(AfterEdits(files, edits[..|edits| - 1], level), edits[|edits| - 1], level)
  }

  /** What SaveTo makes of the files of a level. */
  ghost function Saved(base: set<File>, st: LevelState): set<File> {
    set f | f in base + SetOf(st.added) && f.number !in st.deleted
  }

  // ---- The builder

  class Builder {
    const base: Version
    var levels: seq<LevelState>

    ghost predicate Valid()
      reads this
    {
      |levels| == NUM_LEVELS && forall l :: 0 <= l < NUM_LEVELS ==> Ordered(levels[l].added)
    }

    constructor (base: Version)
      ensures Valid() && this.base == base
      ensures forall l :: 0 <= l < NUM_LEVELS ==> levels[l] == LevelState({}, [])
    {
      this.base := base;
      levels := seq(NUM_LEVELS, _ => LevelState({}, []));
    }

    /** Builder::Apply, the files part. A file's (level, number) pair is added at most once. */
    method Apply(edit: FileEdit)
      requires Valid()
      requires forall d :: d in edit.deleted ==> d.0 < NUM_LEVELS
      requires forall a :: a in edit.added ==> a.0 < NUM_LEVELS
      requires forall i, j :: 0 <= i < j < |edit.added| && edit.added[i].0 == edit.added[j].0
                 ==> edit.added[i].1.number != edit.added[j].1.number
      requires forall a, f :: a in edit.added && f in levels[a.0].added ==> f.number != a.1.number
      modifies this
      ensures Valid()
      ensures forall l :: 0 <= l < NUM_LEVELS ==>
        && levels[l].deleted == (old(levels[l].deleted) + DeletedAt(edit, l)) - Numbers(AddedAt(edit, l))
        && SetOf(levels[l].added) == SetOf(old(levels[l].added)) + AddedAt(edit, l)
    {
      MarkDeleted(edit);
      label marked:
      for i := 0 to |edit.added|
        invariant Valid()
        invariant forall l :: 0 <= l < NUM_LEVELS ==>
          && levels[l].deleted == old@marked(levels[l].deleted) - Numbers(AddedAt(FileEdit([], edit.added[..i]), l))
          && SetOf(levels[l].added) == SetOf(old(levels[l].added)) + AddedAt(FileEdit([], edit.added[..i]), l)
      {
        var level, f := edit.added[i].0, edit.added[i].1;
        forall g | g in levels[level].added
          ensures g.number != f.number
        {
          assert g in SetOf(levels[level].added);
          assert g in AddedAt(FileEdit([], edit.added[..i]), level) || g in old(levels[level].added);
        }
        AddedAtNext(edit.added, i);
        AddOne(level, f);
      }
      assert edit.added[..|edit.added|] == edit.added;
      forall l | 0 <= l < NUM_LEVELS
        ensures AddedAt(FileEdit([], edit.added), l) == AddedAt(edit, l)
      {
      }
    }

    method MarkDeleted(edit: FileEdit)
      requires Valid() && forall d :: d in edit.deleted ==> d.0 < NUM_LEVELS
      modifies this
      ensures Valid()
      ensures forall l :: 0 <= l < NUM_LEVELS ==>
        levels[l] == old(levels[l]).(deleted := old(levels[l].deleted) + DeletedAt(edit, l))
    {
      for i := 0 to |edit.deleted|
        invariant Valid()
        invariant forall l :: 0 <= l < NUM_LEVELS ==>
          levels[l] == old(levels[l]).(deleted := old(levels[l].deleted) + DeletedAt(FileEdit(edit.deleted[..i], []), l))
      {
        var level, number := edit.deleted[i].0, edit.deleted[i].1;
        DeletedAtNext(edit.deleted, i);
        levels := levels[level := levels[level].(deleted := levels[level].deleted + {number})];
      }
      assert edit.deleted[..|edit.deleted|] == edit.deleted;
      forall l | 0 <= l < NUM_LEVELS
        ensures DeletedAt(FileEdit(edit.deleted, []), l) == DeletedAt(edit, l)
      {
      }
    }

    /** Add one file: it is no longer deleted, and it joins the set ordered by key. */
    method AddOne(level: nat, f: File)
      requires Valid() && level < NUM_LEVELS
      requires forall g :: g in levels[level].added ==> g.number != f.number
      modifies this
      ensures Valid()
      ensures forall l :: 0 <= l < NUM_LEVELS && l != level ==> levels[l] == old(levels[l])
      ensures levels[level].deleted == old(levels[level].deleted) - {f.number}
      ensures SetOf(levels[level].added) == SetOf(old(levels[level].added)) + {f}
    {
      var st := levels[level];
      var at := 0;
      while at < |st.added| && ByKey(st.added[at], f)
        invariant 0 <= at <= |st.added|
        invariant forall i :: 0 <= i < at ==> ByKey(st.added[i], f)
      {
        at := at + 1;
      }
      var added := st.added[..at] + [f] + st.added[at..];
      assert st.added == st.added[..at] + st.added[at..];
      forall i | at <= i < |st.added|
        ensures ByKey(f, st.added[i])
      {
        assert st.added[at] in st.added;
      }
      levels := levels[level := LevelState(st.deleted - {f.number}, added)];
    }

    /** Builder::SaveTo. */
    method SaveTo() returns (v: Version)
      requires Valid() && |base| == NUM_LEVELS
      requires forall l :: 0 <= l < NUM_LEVELS ==> Ordered(base[l])
      requires forall l, f, g :: 0 <= l < NUM_LEVELS && f in base[l] && g in levels[l].added ==> f.number != g.number
      ensures |v| == NUM_LEVELS
      ensures forall l :: 0 <= l < NUM_LEVELS ==> Ordered(v[l]) && SetOf(v[l]) == Saved(SetOf(base[l]), levels[l])
    {
      v := [];
      for l := 0 to NUM_LEVELS
        invariant |v| == l
        invariant forall k :: 0 <= k < l ==> Ordered(v[k]) && SetOf(v[k]) == Saved(SetOf(base[k]), levels[k])
      {
        var files := SaveLevel(base[l], levels[l]);
        v := v + [files];
      }
    }
  }

  lemma AddedAtNext(added: seq<(nat, File)>, i: nat)
    requires i < |added|
    ensures forall l :: AddedAt(FileEdit([], added[..i + 1]), l)
                     == AddedAt(FileEdit([], added[..i]), l) + if added[i].0 == l then {added[i].1} else {}
  {
    assert added[..i + 1] == added[..i] + [added[i]];
  }

  lemma DeletedAtNext(deleted: seq<(nat, nat)>, i: nat)
    requires i < |deleted|
    ensures forall l :: DeletedAt(FileEdit(deleted[..i + 1], []), l)
                     == DeletedAt(FileEdit(deleted[..i], []), l) + if deleted[i].0 == l then {deleted[i].1} else {}
  {
    assert deleted[..i + 1] == deleted[..i] + [deleted[i]];
  }

  /** `x` comes before all files that are still to be merged. */
  ghost predicate BeforeAll(x: File, files: seq<File>) {
    forall y :: y in files ==> ByKey(x, y)
  }

  ghost predicate SavedSoFar(files: seq<File>, done: set<File>, deleted: set<nat>, base: seq<File>, added: seq<File>) {
    && Ordered(files)
    && SetOf(files) == (set f | f in done && f.number !in deleted)
    && forall x :: x in files ==> BeforeAll(x, base) && BeforeAll(x, added)
  }

  /** One level of SaveTo: merge the files of the base with the added ones, by key. */
  method SaveLevel(base: seq<File>, st: LevelState) returns (files: seq<File>)
    requires Ordered(base) && Ordered(st.added)
    requires forall f, g :: f in base && g in st.added ==> f.number != g.number
    ensures Ordered(files) && SetOf(files) == Saved(SetOf(base), st)
  {
    files := [];
    var b := 0;
    for a := 0 to |st.added|
      invariant 0 <= b <= |base|
      invariant SavedSoFar(files, SetOf(base[..b]) + SetOf(st.added[..a]), st.deleted, base[b..], st.added[a..])
    {
      while b < |base| && !ByKey(st.added[a], base[b])
        invariant 0 <= b <= |base|
        invariant SavedSoFar(files, SetOf(base[..b]) + SetOf(st.added[..a]), st.deleted, base[b..], st.added[a..])
      {
        NextIsBase(base, b, st.added, a);
        SavedNext(files, SetOf(base[..b]) + SetOf(st.added[..a]), st.deleted, base[b], base[b + 1..], st.added[a..],
                  base[b..], st.added[a..]);
        assert SetOf(base[..b + 1]) == SetOf(base[..b]) + {base[b]};
        assert SetOf(base[..b + 1]) + SetOf(st.added[..a]) == SetOf(base[..b]) + SetOf(st.added[..a]) + {base[b]};
        files := MaybeAddFile(files, base[b], st.deleted);
        b := b + 1;
      }
      NextIsAdded(base, b, st.added, a);
      SavedNext(files, SetOf(base[..b]) + SetOf(st.added[..a]), st.deleted, st.added[a], base[b..], st.added[a + 1..],
                base[b..], st.added[a..]);
      assert SetOf(st.added[..a + 1]) == SetOf(st.added[..a]) + {st.added[a]};
      assert SetOf(base[..b]) + SetOf(st.added[..a + 1]) == SetOf(base[..b]) + SetOf(st.added[..a]) + {st.added[a]};
      files := MaybeAddFile(files, st.added[a], st.deleted);
    }
    assert st.added[..|st.added|] == st.added && st.added[|st.added|..] == [];
    while b < |base|
      invariant 0 <= b <= |base|
      invariant SavedSoFar(files, SetOf(base[..b]) + SetOf(st.added), st.deleted, base[b..], [])
    {
      assert forall y :: y in base[b + 1..] ==> ByKey(base[b], y);
      SavedNext(files, SetOf(base[..b]) + SetOf(st.added), st.deleted, base[b], base[b + 1..], [], base[b..], []);
      assert SetOf(base[..b + 1]) == SetOf(base[..b]) + {base[b]};
      assert SetOf(base[..b + 1]) + SetOf(st.added) == SetOf(base[..b]) + SetOf(st.added) + {base[b]};
      files := MaybeAddFile(files, base[b], st.deleted);
      b := b + 1;
    }
    assert base[..b] == base;
  }

  function MaybeAddFile(files: seq<File>, f: File, deleted: set<nat>): seq<File> {
    if f.number in deleted then files else files + [f]
  }

  lemma NextIsBase(base: seq<File>, b: nat, added: seq<File>, a: nat)
    requires Ordered(base) && Ordered(added) && b < |base| && a < |added|
    requires base[b].number != added[a].number && !ByKey(added[a], base[b])
    ensures BeforeAll(base[b], base[b + 1..]) && BeforeAll(base[b], added[a..])
  {
  }

  lemma NextIsAdded(base: seq<File>, b: nat, added: seq<File>, a: nat)
    requires Ordered(base) && Ordered(added) && b <= |base| && a < |added|
    requires b < |base| ==> ByKey(added[a], base[b])
    ensures BeforeAll(added[a], base[b..]) && BeforeAll(added[a], added[a + 1..])
  {
  }

  lemma SavedNext(files: seq<File>, done: set<File>, deleted: set<nat>, f: File, base: seq<File>, added: seq<File>,
                  oldBase: seq<File>, oldAdded: seq<File>)
    requires SavedSoFar(files, done, deleted, oldBase, oldAdded) && (f in oldBase || f in oldAdded)
    requires forall x :: x in base ==> x in oldBase
    requires forall x :: x in added ==> x in oldAdded
    requires BeforeAll(f, base) && BeforeAll(f, added)
    ensures SavedSoFar(MaybeAddFile(files, f, deleted), done + {f}, deleted, base, added)
  {
    var r := MaybeAddFile(files, f, deleted);
    forall x | x in files
      ensures ByKey(x, f)
    {
      assert BeforeAll(x, oldBase) && BeforeAll(x, oldAdded);
    }
    assert SetOf(r) == SetOf(files) + if f.number in deleted then {} else {f};
    forall x | x in r
      ensures BeforeAll(x, base) && BeforeAll(x, added)
    {
      assert x in files || x == f;
    }
  }

  // ---- Many edits through one builder

  /** The state that a builder reaches by applying the edits, for one level. */
  ghost predicate Reaches(edits: seq<FileEdit>, level: nat, st: LevelState) {
    if edits == [] then st.deleted == {} && st.added == []
    else
      exists prev ::
        && Reaches(edits[..|edits| - 1], level, prev)
        && var edit := edits[|edits| - 1];
           && st.deleted == (prev.deleted + DeletedAt(edit, level)) - Numbers(AddedAt(edit, level))
           && SetOf(st.added) == SetOf(prev.added) + AddedAt(edit, level)
  }

  ghost function AddedBy(edits: seq<FileEdit>, level: nat): set<File> {
    if edits == [] then {} else AddedBy(edits[..|edits| - 1], level) + AddedAt(edits[|edits| - 1], level)
  }

  /** No edit adds the number of a file of the base, or of a file that an earlier edit added. */
  ghost predicate NoReuse(base: set<File>, edits: seq<FileEdit>, level: nat) {
    edits == [] ||
    var init, edit := edits[..|edits| - 1], edits[|edits| - 1];
    && NoReuse(base, init, level)
    && Numbers(AddedAt(edit, level)) !! Numbers(base + AddedBy(init, level))
  }

  /** One builder for many edits saves what one version after the other would. */
  lemma {:induction false} OneBuilderForAll(base: set<File>, edits: seq<FileEdit>, level: nat, st: LevelState)
    requires NoReuse(base, edits, level) && Reaches(edits, level, st)
    ensures Saved(base, st) == AfterEdits(base, edits, level)
    ensures SetOf(st.added) == AddedBy(edits, level)
  {
    if edits != [] {
      var init, edit := edits[..|edits| - 1], edits[|edits| - 1];
      var prev :|
        && Reaches(init, level, prev)
        && st.deleted == (prev.deleted + DeletedAt(edit, level)) - Numbers(AddedAt(edit, level))
        && SetOf(st.added) == SetOf(prev.added) + AddedAt(edit, level);
      OneBuilderForAll(base, init, level, prev);
      OneMoreEdit(base, prev, edit, level, st);
    }
  }

  lemma OneMoreEdit(base: set<File>, prev: LevelState, edit: FileEdit, level: nat, st: LevelState)
    requires st.deleted == (prev.deleted + DeletedAt(edit, level)) - Numbers(AddedAt(edit, level))
    requires SetOf(st.added) == SetOf(prev.added) + AddedAt(edit, level)
    requires Numbers(AddedAt(edit, level)) !! Numbers(base + SetOf(prev.added))
    ensures Saved(base, st) == AfterEdit(Saved(base, prev), edit, level)
  {
    var A := AddedAt(edit, level);
    forall f | f in base + SetOf(prev.added)
      ensures f.number !in Numbers(A)
    {
      assert f.number in Numbers(base + SetOf(prev.added));
    }
    forall f | f in A
      ensures f.number in Numbers(A)
    {
    }
  }

  // ---- Exactly when one builder differs

  ghost predicate Adds(edit: FileEdit, level: nat, n: nat) {
    n in Numbers(AddedAt(edit, level))
  }

  /** The edit deletes the number and does not add it again itself. */
  ghost predicate Deletes(edit: FileEdit, level: nat, n: nat) {
    n in DeletedAt(edit, level) && !Adds(edit, level, n)
  }

  /** The last edit that mentions the number deletes it. */
  ghost predicate DeletedLast(edits: seq<FileEdit>, level: nat, n: nat) {
    edits != [] &&
    var init, edit := edits[..|edits| - 1], edits[|edits| - 1];
    !Adds(edit, level, n) && (Deletes(edit, level, n) || DeletedLast(init, level, n))
  }

  /** An edit deletes the number of `f`, and no later edit adds `f`. */
  ghost predicate DeletedSince(edits: seq<FileEdit>, level: nat, f: File) {
    edits != [] &&
    var init, edit := edits[..|edits| - 1], edits[|edits| - 1];
    Deletes(edit, level, f.number) || (f !in AddedAt(edit, level) && DeletedSince(init, level, f))
  }

  /** The number of `f` was deleted, and later added again for another file, and not deleted after that. */
  ghost predicate ComesBack(base: set<File>, edits: seq<FileEdit>, level: nat, f: File) {
    f in base + AddedBy(edits, level) && DeletedSince(edits, level, f) && !DeletedLast(edits, level, f.number)
  }

  lemma {:induction false} ReachedState(edits: seq<FileEdit>, level: nat, st: LevelState)
    requires Reaches(edits, level, st)
    ensures SetOf(st.added) == AddedBy(edits, level)
    ensures forall n :: n in st.deleted <==> DeletedLast(edits, level, n)
  {
    if edits != [] {
      var init, edit := edits[..|edits| - 1], edits[|edits| - 1];
      var prev :|
        && Reaches(init, level, prev)
        && st.deleted == (prev.deleted + DeletedAt(edit, level)) - Numbers(AddedAt(edit, level))
        && SetOf(st.added) == SetOf(prev.added) + AddedAt(edit, level);
      ReachedState(init, level, prev);
    }
  }

  lemma {:induction false} VersionByVersion(base: set<File>, edits: seq<FileEdit>, level: nat)
    ensures forall f :: f in AfterEdits(base, edits, level)
                   <==> f in base + AddedBy(edits, level) && !DeletedSince(edits, level, f)
  {
    if edits != [] {
      var init, edit := edits[..|edits| - 1], edits[|edits| - 1];
      VersionByVersion(base, init, level);
      forall f
        ensures f in AfterEdits(base, edits, level)
           <==> f in base + AddedBy(edits, level) && !DeletedSince(edits, level, f)
      {
        assert f in AddedAt(edit, level) ==> Adds(edit, level, f.number);
      }
    }
  }

  /** What is deleted at last was deleted and not added since. */
  lemma {:induction false} LastIsSince(edits: seq<FileEdit>, level: nat, f: File)
    requires DeletedLast(edits, level, f.number)
    ensures DeletedSince(edits, level, f)
  {
    var init, edit := edits[..|edits| - 1], edits[|edits| - 1];
    assert f in AddedAt(edit, level) ==> Adds(edit, level, f.number);
    if !Deletes(edit, level, f.number) {
      LastIsSince(init, level, f);
    }
  }

  /** For any edits, one builder saves what the versions one after the other would, and besides exactly
      the files that come back: whose number an edit deleted and a later one added for another file. */
  lemma BuilderKeepsMore(base: set<File>, edits: seq<FileEdit>, level: nat, st: LevelState)
    requires Reaches(edits, level, st)
    ensures Saved(base, st) == AfterEdits(base, edits, level) + set f | f in base + AddedBy(edits, level) && ComesBack(base, edits, level, f)
    ensures Saved(base, st) == AfterEdits(base, edits, level) <==> !exists f :: ComesBack(base, edits, level, f)
  {
    ReachedState(edits, level, st);
    VersionByVersion(base, edits, level);
    forall f | f in base + AddedBy(edits, level)
      ensures DeletedLast(edits, level, f.number) ==> DeletedSince(edits, level, f)
    {
      if DeletedLast(edits, level, f.number) {
        LastIsSince(edits, level, f);
      }
    }
  }

  /** File 5 is deleted by one edit, and another file 5 is added by the next: the builder keeps both. */
  lemma DeletedFileStays(old5: File, new5: File, level: nat, st: LevelState)
    requires old5.number == new5.number == 5 && old5 != new5
    requires Reaches([FileEdit([(level, 5)], []), FileEdit([], [(level, new5)])], level, st)
    ensures var edits := [FileEdit([(level, 5)], []), FileEdit([], [(level, new5)])];
      ComesBack({old5}, edits, level, old5) && Saved({old5}, st) == {old5, new5} && AfterEdits({old5}, edits, level) == {new5}
  {
    var first, second := FileEdit([(level, 5)], []), FileEdit([], [(level, new5)]);
    var edits := [first, second];
    assert edits[..1] == [first] && [first][..0] == [];
    assert first.deleted[0] == (level, 5) && second.added[0] == (level, new5);
    assert DeletedAt(first, level) == {5} && AddedAt(first, level) == {} && DeletedAt(second, level) == {} && AddedAt(second, level) == {new5};
    assert Adds(second, level, 5) by {
      assert new5 in AddedAt(second, level);
    }
    assert AfterEdits({old5}, [], level) == {old5};
    assert AfterEdits({old5}, [first], level) == AfterEdit({old5}, first, level) == {};
    assert AddedBy([first], level) == AddedBy([], level) + AddedAt(first, level) == {};
    assert AddedBy(edits, level) == AddedBy([first], level) + AddedAt(second, level) == {new5};
    assert DeletedSince([first], level, old5);
    BuilderKeepsMore({old5}, edits, level, st);
    ReachedState(edits, level, st);
  }

  /** For two edits the condition is exact: the builder differs from the versions when the
      second edit adds the number of a file that the first one deleted, and only then. */
  lemma TwoEditsIff(base: set<File>, first: FileEdit, second: FileEdit, level: nat, st: LevelState)
    requires Reaches([first, second], level, st)
    requires Numbers(AddedAt(first, level)) !! Numbers(base)
    requires Numbers(AddedAt(first, level)) !! Numbers(AddedAt(second, level))
    ensures Saved(base, st) == AfterEdits(base, [first, second], level)
      <==> !exists f :: && f in base && f !in AddedAt(second, level)
                        && f.number in DeletedAt(first, level) && f.number in Numbers(AddedAt(second, level))
  {
    var A1, A2 := AddedAt(first, level), AddedAt(second, level);
    var D1, D2 := DeletedAt(first, level), DeletedAt(second, level);
    assert [first, second][..1] == [first] && [first][..0] == [];
    var after1 := AfterEdit(base, first, level);
    assert AfterEdits(base, [first], level) == after1;
    var after2 := AfterEdit(after1, second, level);
    assert AfterEdits(base, [first, second], level) == after2;
    TwoEditsState(first, second, level, st);
    forall f | f in A1 + A2
      ensures f in Saved(base, st) <==> f in after2
    {
      assert f.number in Numbers(A1) || f.number in Numbers(A2);
    }
    forall f | f in base && f !in A2
      ensures (f in Saved(base, st) && f !in after2) <==> f.number in D1 && f.number in Numbers(A2)
      ensures f in after2 ==> f in Saved(base, st)
    {
      assert f.number in Numbers(base);
    }
  }

  lemma TwoEditsState(first: FileEdit, second: FileEdit, level: nat, st: LevelState)
    requires Reaches([first, second], level, st)
    ensures SetOf(st.added) == AddedAt(first, level) + AddedAt(second, level)
    ensures st.deleted == (DeletedAt(first, level) - Numbers(AddedAt(first, level)) + DeletedAt(second, level))
                            - Numbers(AddedAt(second, level))
  {
    var edits := [first, second];
    assert edits[..1] == [first] && [first][..0] == [];
    var one :|
      && Reaches([first], level, one)
      && st.deleted == (one.deleted + DeletedAt(second, level)) - Numbers(AddedAt(second, level))
      && SetOf(st.added) == SetOf(one.added) + AddedAt(second, level);
    var zero :|
      && Reaches([], level, zero)
      && one.deleted == (zero.deleted + DeletedAt(first, level)) - Numbers(AddedAt(first, level))
      && SetOf(one.added) == SetOf(zero.added) + AddedAt(first, level);
  }
}
