/** Where a memtable's table goes (Version::PickLevelForMemTableOutput), and why that is safe
    even in the middle of a compaction (db/version_set.cc, db/db_impl.cc). */
module Flush {
  import opened DbFormat
  import opened Versions
  import opened Ranges
  import opened Inputs
  import opened Setup
  import opened Lookup
  import opened Compact
  import opened Preserve

  /** SomeFileOverlapsRange: a scan at level 0, a binary search above. */
  method SomeFileOverlapsRange(disjointSorted: bool, files: seq<File>, smallest: Bound, largest: Bound)
    returns (r: bool)
    requires AllWellFormed(files) && (disjointSorted ==> Disjoint(files))
    requires smallest.Some? && largest.Some? ==> smallest.value <= largest.value
    requires forall f :: f in files ==> f.largest.sequence < MAX_SEQUENCE_NUMBER
    ensures r <==> exists f :: f in files && Meets(f, smallest, largest)
  {
    if !disjointSorted {
      for i := 0 to |files|
        invariant forall j :: 0 <= j < i ==> !Meets(files[j], smallest, largest)
      {
        if EndsBefore(files[i], smallest) || StartsAfter(files[i], largest) {
        } else {
          assert Meets(files[i], smallest, largest);
          return true;
        }
      }
      return false;
    }
    var index := 0;
    if smallest.Some? {
      index := FindFile(files, LookupKey(smallest.value, MAX_SEQUENCE_NUMBER));
    }
    LevelAscends(files);
    forall i | 0 <= i < |files|
      ensures EndsBefore(files[i], smallest) <==> i < index
    {
      assert files[i] in files;
    }
    if index >= |files| {
      return false;
    }
    r := !StartsAfter(files[index], largest);
    if r {
      assert Meets(files[index], smallest, largest);
    } else {
      forall i | 0 <= i < |files|
        ensures !Meets(files[i], smallest, largest)
      {
        if index < i {
          assert files[index].smallest.user <= files[index].largest.user <= files[i].smallest.user;
        }
      }
    }
  }

  /** No file of the first levels, up to and including `level`, meets the range. */
  ghost predicate ClearDownTo(v: Version, level: nat, smallest: UserKey, largest: UserKey) {
    forall l, f :: 0 <= l <= level && l < |v| && f in v[l] ==> !Meets(f, Some(smallest), Some(largest))
  }

  ghost predicate SequencesInRange(v: Version) {
    forall l, f :: 0 <= l < |v| && f in v[l] ==> f.largest.sequence < MAX_SEQUENCE_NUMBER
  }

  /** The table may not go below `level`: files of the next level meet its range, or too much of the one after. */
  ghost predicate Stops(v: Version, level: nat, smallest: UserKey, largest: UserKey, options: Options)
    requires |v| == NUM_LEVELS && level <= MAX_MEM_COMPACT_LEVEL
  {
    || level == 2
    || (exists f :: f in v[level + 1] && Meets(f, Some(smallest), Some(largest)))
    || TotalFileSize(Meeting(v[level + 2], Some(smallest), Some(largest))) > 10 * options.maxFileSize
  }

  /** Version::PickLevelForMemTableOutput. */
  method PickLevelForMemTableOutput(v: Version, smallest: UserKey, largest: UserKey, options: Options)
    returns (level: nat)
    requires VersionOK(v) && SequencesInRange(v) && smallest <= largest
    ensures level <= 2
    ensures level > 0 ==> ClearDownTo(v, level, smallest, largest)
    ensures if exists f :: f in v[0] && Meets(f, Some(smallest), Some(largest)) then level == 0
            else Stops(v, level, smallest, largest, options)
                 && forall l: nat :: l < level ==> !Stops(v, l, smallest, largest, options)
  {
    level := 0;
    var overlap := SomeFileOverlapsRange(false, v[0], Some(smallest), Some(largest));
    if !overlap {
      while level < MAX_MEM_COMPACT_LEVEL
        invariant 0 <= level <= MAX_MEM_COMPACT_LEVEL && ClearDownTo(v, level, smallest, largest)
        invariant forall l: nat :: l < level ==> !Stops(v, l, smallest, largest, options)
      {
        var overlapNext := SomeFileOverlapsRange(true, v[level + 1], Some(smallest), Some(largest));
        if overlapNext {
          break;
        }
        if level + 2 < NUM_LEVELS {
          var overlaps, _, _ := GetOverlappingInputs(v[level + 2], level + 2, Some(smallest), Some(largest));
          if TotalFileSize(overlaps) > options.MaxGrandParentOverlapBytes() {
            break;
          }
        }
        level := level + 1;
      }
    }
  }

  // ---- Adding the table

  /** `w` is `v` with table `f` added to `level`. */
  ghost predicate Added(v: Version, level: nat, f: File, w: Version) {
    && |w| == |v| && level < |v|
    && (forall l :: 0 <= l < |v| && l != level ==> w[l] == v[l])
    && (forall g :: g in w[level] <==> g in v[level] || g == f)
    && InKeyOrder(w[level])
  }

  /** The table of a memtable: newer than the version, and placed as the store places it. */
  ghost predicate FreshTable(v: Version, level: nat, f: File) {
    && WellFormed(f) && level < NUM_LEVELS
    && (forall l, g :: 0 <= l < |v| && g in v[l] ==> NewerThan(f, g))
    && (forall l, g :: 0 <= l < |v| && g in v[l] ==> g.number < f.number)
    && (level > 0 ==> ClearDownTo(v, level, f.smallest.user, f.largest.user))
  }

  lemma ClearIsApart(v: Version, level: nat, f: File, l: nat, g: File)
    requires FreshTable(v, level, f) && 0 < level && l <= level && l < |v| && g in v[l]
    ensures Apart(f, g)
  {
    assert !Meets(g, Some(f.smallest.user), Some(f.largest.user));
  }

  lemma {:induction false} ClearIsUnrelated(v: Version, level: nat, f: File, l: nat, g: File)
    requires VersionOK(v) && FreshTable(v, level, f) && 0 < level && l <= level && l < |v| && g in v[l]
    ensures NewerThan(g, f) && Separate(f, g)
  {
    ClearIsApart(v, level, f, l, g);
    ApartShareNothing(g, f);
  }

  lemma AddedVersionOK(v: Version, level: nat, f: File, w: Version)
    requires VersionOK(v) && FreshTable(v, level, f) && Added(v, level, f, w)
    ensures VersionOK(w)
  {
    assert AllWellFormed(w[level]);
    if level > 0 {
      forall g, h | g in w[level] && h in w[level] && g != h
        ensures Separate(g, h)
      {
        if g in v[level] && h in v[level] {
          var i :| 0 <= i < |v[level]| && v[level][i] == g;
          var j :| 0 <= j < |v[level]| && v[level][j] == h;
        } else if g == f {
          ClearIsUnrelated(v, level, f, level, h);
        } else {
          ClearIsUnrelated(v, level, f, level, g);
        }
      }
      SeparateFilesDisjoint(w[level]);
    }
    AddedNumbers(v, level, f, w);
    AddedAge(v, level, f, w);
  }

  lemma AddedNumbers(v: Version, level: nat, f: File, w: Version)
    requires VersionOK(v) && FreshTable(v, level, f) && Added(v, level, f, w)
    ensures NewestByNumber(w[0]) && DistinctNumbers(w[0])
  {
    forall i, j | 0 <= i < j < |w[0]|
      ensures w[0][i].number != w[0][j].number
    {
      if level == 0 {
        var g, h := w[0][i], w[0][j];
        assert g != h;
        if g in v[0] && h in v[0] {
          var p :| 0 <= p < |v[0]| && v[0][p] == g;
          var q :| 0 <= q < |v[0]| && v[0][q] == h;
        }
      }
    }
  }

  lemma AddedAge(v: Version, level: nat, f: File, w: Version)
    requires VersionOK(v) && FreshTable(v, level, f) && Added(v, level, f, w)
    ensures LevelsByAge(w)
  {
    forall l, m, g, h | 0 <= l < m < |w| && g in w[l] && h in w[m]
      ensures NewerThan(g, h)
    {
      if g in v[l] && h in v[m] {
      } else if g in v[l] {
        ClearIsUnrelated(v, level, f, l, g);
      }
    }
  }

  lemma AddedEntries(v: Version, level: nat, f: File, w: Version)
    requires Added(v, level, f, w)
    ensures VersionEntries(w) == VersionEntries(v) + Elements(f.entries)
  {
    forall e
      ensures e in VersionEntries(w) <==> e in VersionEntries(v) + Elements(f.entries)
    {
      StoredSomewhere(v, e);
      StoredSomewhere(w, e);
      if e in VersionEntries(w) {
        var l :| 0 <= l < |w| && StoredAt(w, l, e);
        var g :| g in w[l] && e in g.entries;
        assert g in v[l] ==> StoredAt(v, l, e);
      }
      if e in VersionEntries(v) {
        var l :| 0 <= l < |v| && StoredAt(v, l, e);
        var g :| g in v[l] && e in g.entries;
        assert g in w[l] && StoredAt(w, l, e);
      }
      if e in f.entries {
        assert StoredAt(w, level, e);
      }
    }
  }

  // ---- A flush in the middle of a compaction

  /** The hull of covered files and a range that meets none of them do not touch. */
  lemma OutsideHull(files: seq<File>, f: File)
    requires Covered(files) && files != [] && f.smallest.user <= f.largest.user && AllWellFormed(files)
    requires forall g :: g in files ==> Apart(f, g)
    ensures || (forall g :: g in files ==> f.largest.user < g.smallest.user)
            || (forall g :: g in files ==> g.largest.user < f.smallest.user)
  {
    forall k | k in files
      ensures !Holds(k, f.smallest.user)
    {
      assert Apart(f, k);
    }
    if g, h :| g in files && h in files && f.largest.user >= g.smallest.user && h.largest.user >= f.smallest.user {
      RangeIsProper(g);
      RangeIsProper(h);
      assert Apart(f, g) && Apart(f, h);
      assert Spans(g, h, f.smallest.user);
    }
  }

  /** A table that is added while a compaction works shares no user key with the inputs above it. */
  lemma AddedApart(v: Version, level: nat, f: File, c: Compaction)
    requires VersionOK(v) && FreshTable(v, level, f) && InputsApart(v, c) && level >= c.level + 1
    ensures forall g :: g in c.Inputs() ==> Apart(f, g) && Apart(g, f) && WellFormed(g)
    ensures forall e :: e in InputEntries(c) ==> !Holds(f, e.key.user)
  {
    forall g | g in c.Inputs()
      ensures Apart(f, g) && Apart(g, f) && WellFormed(g)
    {
      ClearIsApart(v, level, f, if g in c.inputs0 then c.level else c.level + 1, g);
    }
    forall e | e in InputEntries(c)
      ensures !Holds(f, e.key.user)
    {
      var g :| g in c.Inputs() && e in g.entries;
      EntryWithinFile(g, e);
    }
  }

  lemma AddedInputsApart(v: Version, level: nat, f: File, w: Version, c: Compaction)
    requires VersionOK(v) && FreshTable(v, level, f) && Added(v, level, f, w) && InputsApart(v, c)
    ensures InputsApart(w, c)
  {
    if level == c.level + 1 {
      AddedApart(v, level, f, c);
    }
  }

  /** Inputs stay closed when a table is added while the compaction works, if and only if the table is not
      placed between them at the level of the outputs. */
  lemma AddedInputsClosedIff(v: Version, level: nat, f: File, w: Version, c: Compaction)
    requires VersionOK(v) && FreshTable(v, level, f) && Added(v, level, f, w) && InputsClosed(v, c)
    ensures InputsClosed(w, c) <==> (level == c.level + 1 ==> OnOneSide(f, c.Inputs()))
  {
    AddedInputsApart(v, level, f, w, c);
  }

  /** The inputs of an automatically picked compaction leave no gap for it, and so they stay closed. */
  lemma AddedInputsClosed(v: Version, level: nat, f: File, w: Version, c: Compaction)
    requires VersionOK(v) && FreshTable(v, level, f) && Added(v, level, f, w)
    requires InputsClosed(v, c) && Covered(c.Inputs())
    ensures InputsClosed(w, c)
  {
    AddedInputsClosedIff(v, level, f, w, c);
    if level == c.level + 1 {
      AddedBesideInputs(v, level, f, c);
    }
  }

  lemma AddedBesideInputs(v: Version, level: nat, f: File, c: Compaction)
    requires VersionOK(v) && FreshTable(v, level, f) && InputsApart(v, c) && Covered(c.Inputs())
    requires level >= c.level + 1
    ensures OnOneSide(f, c.Inputs())
    ensures forall g :: g in c.Inputs() ==> Apart(g, f)
  {
    RangeIsProper(f);
    AddedApart(v, level, f, c);
    OutsideHull(c.Inputs(), f);
  }

  /** The added table does not change which user keys of the inputs are at their base level. */
  lemma AddedBaseLevel(v: Version, level: nat, f: File, w: Version, c: Compaction)
    requires VersionOK(v) && FreshTable(v, level, f) && Added(v, level, f, w) && InputsApart(v, c)
    ensures forall e :: e in InputEntries(c) ==>
              (BaseLevel(w, c.level, e.key.user) <==> BaseLevel(v, c.level, e.key.user))
  {
    forall e | e in InputEntries(c)
      ensures BaseLevel(w, c.level, e.key.user) <==> BaseLevel(v, c.level, e.key.user)
    {
      if level >= c.level + 2 {
        AddedApart(v, level, f, c);
      }
      if BaseLevel(w, c.level, e.key.user) {
        forall l, g | c.level + 2 <= l < |v| && g in v[l]
          ensures !Holds(g, e.key.user)
        {
          assert g in w[l];
        }
      }
    }
  }

  /** So the loop drops the same entries as if the table had been there from the start, with gaps or without. */
  lemma AddedKeepsKept(v: Version, level: nat, f: File, w: Version, c: Compaction, smallest: SequenceNumber)
    requires VersionOK(v) && FreshTable(v, level, f) && Added(v, level, f, w) && InputsApart(v, c)
    ensures Kept(w, c.level, InputEntries(c), smallest) == Kept(v, c.level, InputEntries(c), smallest)
  {
    AddedBaseLevel(v, level, f, w, c);
  }
}
