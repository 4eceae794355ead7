/** VersionSet::SetupOtherInputs, PickCompaction and CompactRange (db/version_set.cc), and what
    their results promise the compaction that follows. */
module Setup {
  import opened DbFormat
  import opened Versions
  import opened Ranges
  import opened Inputs

  datatype Compaction = Compaction(level: nat, inputs0: seq<File>, inputs1: seq<File>, grandparents: seq<File>) {
    function Inputs(): seq<File> { inputs0 + inputs1 }
  }

  ghost predicate Apart(f: File, g: File) {
    f.largest.user < g.smallest.user || g.largest.user < f.smallest.user
  }

  /** `g` lies before all of `files` or after all of them. */
  ghost predicate OnOneSide(g: File, files: seq<File>) {
    || (forall f :: f in files ==> Before(g.largest, f.smallest))
    || (forall f :: f in files ==> Before(f.largest, g.smallest))
  }

  /** Inputs of a compaction into `level` + 1: the files left at `level` are newer, and those left at
      `level` + 1 share no user key with inputs0. */
  ghost predicate InputsApart(v: Version, c: Compaction) {
    && |v| == NUM_LEVELS && c.level + 1 < NUM_LEVELS && c.inputs0 != []
    && (forall f :: f in c.inputs0 ==> f in v[c.level])
    && (forall f :: f in c.inputs1 ==> f in v[c.level + 1])
    && (forall h, f :: h in v[c.level] && h !in c.inputs0 && f in c.inputs0 ==> NewerThan(h, f))
    && (forall g, f :: g in v[c.level + 1] && g !in c.inputs1 && f in c.inputs0 ==> Apart(f, g))
  }

  /** What the compaction relies on: besides, no file left at `level` + 1 reaches into the hull of the inputs. */
  ghost predicate InputsClosed(v: Version, c: Compaction) {
    && InputsApart(v, c)
    && (forall g :: g in v[c.level + 1] && g !in c.inputs1 ==> OnOneSide(g, c.Inputs()))
  }

  predicate Spans(f: File, g: File, user: UserKey) {
    f.smallest.user <= user <= g.largest.user
  }

  /** The files leave no gap: each user key of their hull is in the range of one of them. */
  ghost predicate Covered(files: seq<File>) {
    forall f, g, user :: f in files && g in files && Spans(f, g, user) ==> exists h :: h in files && Holds(h, user)
  }

  /** The files to start from: a closed set at level 0, consecutive files above. */
  ghost predicate Seed(files: seq<File>, level: nat, seed: seq<File>) {
    && seed != []
    && if level == 0 then exists b, e :: ClosedRange(files, b, e) && seed == Meeting(files, b, e)
       else exists lo, hi :: 0 <= lo < hi <= |files| && seed == files[lo..hi]
  }

  /** A seed that also takes in the whole of every user key it ends on. */
  ghost predicate Run(files: seq<File>, level: nat, inputs: seq<File>) {
    && inputs != []
    && if level == 0 then exists b, e :: ClosedRange(files, b, e) && inputs == Meeting(files, b, e)
       else exists lo, hi :: 0 <= lo < hi <= |files| && inputs == files[lo..hi] && CleanCut(files, hi)
  }

  ghost predicate LevelOK(files: seq<File>, level: nat) {
    AllWellFormed(files) && (level > 0 ==> Disjoint(files))
  }

  /** The files of the next level that the user keys of `inputs` reach. */
  function Reached(next: seq<File>, inputs: seq<File>): seq<File>
    requires inputs != []
  {
    Meeting(next, Some(SmallestKey(inputs).user), Some(LargestKey(inputs).user))
  }

  /** AddBoundaryInputs after a seed: the result is a run. */
  lemma BoundaryMakesRun(files: seq<File>, level: nat, seed: seq<File>, r: seq<File>)
    requires LevelOK(files, level) && Seed(files, level, seed) && BoundaryChain(files, seed, r)
    ensures Run(files, level, r)
    ensures forall f :: f in seed ==> f in r
    ensures forall f :: f in r ==> f in files
    ensures Covered(seed) ==> Covered(r)
  {
    if level == 0 {
      var b, e :| ClosedRange(files, b, e) && seed == Meeting(files, b, e);
      NoBoundaryOfClosed(files, b, e, r);
      MeetingMembers(files, b, e);
    } else {
      var lo, mid :| 0 <= lo < mid <= |files| && seed == files[lo..mid];
      var hi := BoundaryRun(files, lo, mid, r);
      assert files[lo..mid] == files[lo..hi][..mid - lo];
      if Covered(seed) {
        ChainCovered(files, lo, mid, hi);
      }
    }
  }

  lemma {:induction false} NoBoundaryOfClosed(files: seq<File>, b: Bound, e: Bound, r: seq<File>)
    requires AllWellFormed(files) && ClosedRange(files, b, e) && Meeting(files, b, e) != []
    requires Links(files, Meeting(files, b, e), r)
    ensures r == Meeting(files, b, e)
  {
    var seed := Meeting(files, b, e);
    if r != seed {
      var init, f := r[..|r| - 1], r[|r| - 1];
      NoBoundaryOfClosed(files, b, e, init);
      MeetingMembers(files, b, e);
      HullBounds(seed);
      var g :| g in seed && g.largest == LargestKey(seed);
      RangeIsProper(f);
      RangeIsProper(g);
      assert Within(g, b, e);
      assert Meets(f, b, e);
      assert false;
    }
  }

  lemma {:induction false} ChainCovered(files: seq<File>, lo: nat, mid: nat, hi: nat)
    requires AllWellFormed(files) && lo < mid <= hi <= |files| && Covered(files[lo..mid])
    requires forall i :: mid <= i < hi ==> files[i - 1].largest.user == files[i].smallest.user
    ensures Covered(files[lo..hi])
  {
    if mid < hi {
      hide Covered, WellFormed;
      ChainCovered(files, lo, mid, hi - 1);
      NeighbourMeets(files, hi - 1);
      var init := files[lo..hi - 1];
      InSlice(files, lo, hi - 1, hi - 2);
      assert files[hi - 2] in init;
      assert MeetsHull(init, files[hi - 1]);
      CoverOneMore(init, files[hi - 1]);
      assert files[lo..hi] == init + [files[hi - 1]];
    }
  }

  lemma NeighbourMeets(files: seq<File>, i: nat)
    requires AllWellFormed(files) && 0 < i < |files| && files[i - 1].largest.user == files[i].smallest.user
    ensures files[i - 1].smallest.user <= files[i].largest.user && files[i].smallest.user <= files[i - 1].largest.user
  {
    RangeIsProper(files[i - 1]);
    RangeIsProper(files[i]);
  }

  ghost predicate MeetsHull(files: seq<File>, f: File) {
    exists p, q :: p in files && q in files && p.smallest.user <= f.largest.user && f.smallest.user <= q.largest.user
  }

  /** A file that meets the hull of covered files joins them without a gap. */
  lemma CoverOneMore(files: seq<File>, f: File)
    requires Covered(files) && MeetsHull(files, f)
    ensures Covered(files + [f])
  {
    var p, q :| p in files && q in files && p.smallest.user <= f.largest.user && f.smallest.user <= q.largest.user;
    var s := files + [f];
    forall x, y, user | x in s && y in s && Spans(x, y, user)
      ensures exists h :: h in s && Holds(h, user)
    {
      if Holds(f, user) {
      } else if user > f.largest.user && y in files {
        assert Spans(p, y, user);
        var h :| h in files && Holds(h, user);
        assert h in s;
      } else if user < f.smallest.user && x in files {
        assert Spans(x, q, user);
        var h :| h in files && Holds(h, user);
        assert h in s;
      }
    }
  }

  lemma {:induction false} CoverMore(files: seq<File>, more: seq<File>)
    requires Covered(files)
    requires forall f :: f in more ==> MeetsHull(files, f)
    ensures Covered(files + more)
  {
    if more == [] {
      assert files + more == files;
    } else {
      var n := |more| - 1;
      assert forall f :: f in more[..n] ==> f in more;
      CoverMore(files, more[..n]);
      var f := more[n];
      assert MeetsHull(files, f);
      var p, q :| p in files && q in files && p.smallest.user <= f.largest.user && f.smallest.user <= q.largest.user;
      assert p in files + more[..n] && q in files + more[..n];
      CoverOneMore(files + more[..n], f);
      assert files + more == files + more[..n] + [f];
    }
  }

  lemma SameFilesCovered(a: seq<File>, b: seq<File>)
    requires Covered(a) && forall f :: f in a <==> f in b
    ensures Covered(b)
  {
    forall f, g, user | f in b && g in b && Spans(f, g, user)
      ensures exists h :: h in b && Holds(h, user)
    {
      var h :| h in a && Holds(h, user);
      assert h in b;
    }
  }

  lemma HullOfUsers(files: seq<File>)
    requires files != []
    ensures forall f :: f in files ==> SmallestKey(files).user <= f.smallest.user && f.largest.user <= LargestKey(files).user
    ensures exists p :: p in files && p.smallest.user == SmallestKey(files).user
    ensures exists q :: q in files && q.largest.user == LargestKey(files).user
  {
    HullBounds(files);
    var p :| p in files && p.smallest == SmallestKey(files);
    var q :| q in files && q.largest == LargestKey(files);
    assert p.smallest.user == SmallestKey(files).user && q.largest.user == LargestKey(files).user;
  }

  // ---- A run and what it reaches are closed

  /** The shape in which SetupOtherInputs leaves the inputs. */
  ghost predicate Chosen(files: seq<File>, next: seq<File>, c: Compaction) {
    Run(files, c.level, c.inputs0) && c.inputs1 == Reached(next, c.inputs0)
  }

  lemma ChosenIsClosed(v: Version, c: Compaction)
    requires VersionOK(v) && c.level + 1 < NUM_LEVELS && Chosen(v[c.level], v[c.level + 1], c)
    ensures InputsClosed(v, c)
  {
    RunIsOldest(v[c.level], c.level, c.inputs0);
    var b, e := Some(SmallestKey(c.inputs0).user), Some(LargestKey(c.inputs0).user);
    MeetingMembers(v[c.level + 1], b, e);
    HullOfUsers(c.inputs0);
    forall g | g in v[c.level + 1] && g !in c.inputs1
      ensures OnOneSide(g, c.Inputs())
      ensures forall f :: f in c.inputs0 ==> Apart(f, g)
    {
      UnreachedIsApart(v[c.level + 1], b, e, g, c.inputs0);
    }
  }

  /** The files that stay at the level are newer than those of the run. */
  lemma RunIsOldest(files: seq<File>, level: nat, inputs: seq<File>)
    requires LevelOK(files, level) && Run(files, level, inputs)
    ensures forall f :: f in inputs ==> f in files
    ensures forall h, f :: h in files && h !in inputs && f in inputs ==> NewerThan(h, f)
  {
    if level == 0 {
      var b, e :| ClosedRange(files, b, e) && inputs == Meeting(files, b, e);
      ClosedIsOldest(files, b, e);
    } else {
      var lo, hi :| 0 <= lo < hi <= |files| && inputs == files[lo..hi] && CleanCut(files, hi);
      SliceIsOldest(files, lo, hi);
    }
  }

  lemma ClosedIsOldest(files: seq<File>, b: Bound, e: Bound)
    requires AllWellFormed(files) && ClosedRange(files, b, e)
    ensures forall f :: f in Meeting(files, b, e) ==> f in files
    ensures forall h, f :: h in files && h !in Meeting(files, b, e) && f in Meeting(files, b, e) ==> NewerThan(h, f)
  {
    MeetingMembers(files, b, e);
    forall h, f | h in files && !Meets(h, b, e) && f in files && Meets(f, b, e)
      ensures NewerThan(h, f)
    {
      assert Within(f, b, e);
      ApartShareNothing(h, f);
    }
  }

  lemma SliceIsOldest(files: seq<File>, lo: nat, hi: nat)
    requires AllWellFormed(files) && Disjoint(files) && lo < hi <= |files| && CleanCut(files, hi)
    ensures forall h, f :: h in files && h !in files[lo..hi] && f in files[lo..hi] ==> NewerThan(h, f)
  {
    forall h, f | h in files && h !in files[lo..hi] && f in files[lo..hi]
      ensures NewerThan(h, f)
    {
      var i :| 0 <= i < |files| && files[i] == h;
      var j :| lo <= j < hi && files[j] == f;
      if lo <= i < hi {
        InSlice(files, lo, hi, i);
      }
      if i < lo {
        EarlierFileIsNewer(files, i, j);
      } else {
        BeyondCleanCut(files, hi, i, j);
      }
    }
  }

  lemma InSlice(files: seq<File>, lo: nat, hi: nat, i: nat)
    requires lo <= i < hi <= |files|
    ensures files[i] in files[lo..hi]
  {
    assert files[lo..hi][i - lo] == files[i];
  }

  lemma BeyondCleanCut(files: seq<File>, hi: nat, i: nat, j: nat)
    requires AllWellFormed(files) && Disjoint(files) && j < hi <= i < |files| && CleanCut(files, hi)
    ensures NewerThan(files[i], files[j])
  {
    LevelAscends(files);
    assert files[j].largest.user <= files[hi - 1].largest.user;
    assert files[hi].smallest.user <= files[i].smallest.user;
    ApartShareNothing(files[i], files[j]);
  }

  lemma ApartShareNothing(h: File, f: File)
    requires WellFormed(h) && WellFormed(f) && Apart(h, f)
    ensures NewerThan(h, f)
  {
    forall e, x | e in h.entries && x in f.entries
      ensures e.key.user != x.key.user
    {
      EntryWithinFile(h, e);
      EntryWithinFile(f, x);
    }
  }

  lemma UnreachedIsApart(next: seq<File>, b: Bound, e: Bound, g: File, inputs0: seq<File>)
    requires AllWellFormed(next) && Disjoint(next) && g in next && g !in Meeting(next, b, e) && b.Some? && e.Some?
    requires forall f :: f in inputs0 ==> b.value <= f.smallest.user && f.largest.user <= e.value
    ensures OnOneSide(g, inputs0 + Meeting(next, b, e))
    ensures forall f :: f in inputs0 ==> Apart(f, g)
  {
    MeetingMembers(next, b, e);
    var inputs1 := Meeting(next, b, e);
    LevelAscends(next);
    var i :| 0 <= i < |next| && next[i] == g;
    forall f | f in inputs1
      ensures EndsBefore(g, b) ==> Before(g.largest, f.smallest)
      ensures StartsAfter(g, e) ==> Before(f.largest, g.smallest)
    {
      var j :| 0 <= j < |next| && next[j] == f;
      assert Meets(f, b, e);
      assert EndsBefore(g, b) ==> i < j;
      assert StartsAfter(g, e) ==> j < i;
    }
    if EndsBefore(g, b) {
      assert forall f :: f in inputs0 + inputs1 ==> Before(g.largest, f.smallest);
    } else {
      assert forall f :: f in inputs0 + inputs1 ==> Before(f.largest, g.smallest);
    }
  }

  // ---- The methods

  function UserRange(files: seq<File>): (Bound, Bound)
    requires files != []
  {
    (Some(SmallestKey(files).user), Some(LargestKey(files).user))
  }

  /** GetOverlappingInputs at a level finds a seed as soon as it finds a file. */
  lemma OverlappingIsSeed(files: seq<File>, level: nat, b: Bound, e: Bound)
    requires LevelOK(files, level) && Meeting(files, b, e) != []
    requires level == 0 ==> ClosedRange(files, b, e)
    ensures Seed(files, level, Meeting(files, b, e))
  {
    if level > 0 {
      var lo, hi := MeetingIsSlice(files, b, e);
      assert lo < hi && Meeting(files, b, e) == files[lo..hi];
    }
  }

  /** [b, e] is the range whose files GetOverlappingInputs finds for the hull of `inputs`. */
  ghost predicate RangeOf(files: seq<File>, level: nat, inputs: seq<File>, b: Bound, e: Bound)
    requires inputs != []
  {
    var begin, end := Some(SmallestKey(inputs).user), Some(LargestKey(inputs).user);
    if level == 0 then LeastClosed(files, begin, end, b, e) else b == begin && e == end
  }

  /** The wider inputs are taken exactly when there are more of them, they stay below the size limit, and
      they reach no more files of the next level. */
  ghost predicate Expanded(files: seq<File>, next: seq<File>, c: Compaction, options: Options, b: Bound, e: Bound,
                           wider: seq<File>, inputs0: seq<File>)
    requires c.inputs0 != []
  {
    && RangeOf(files, c.level, c.Inputs(), b, e)
    && Meeting(files, b, e) != [] && BoundaryChain(files, Meeting(files, b, e), wider) && wider != []
    && var take :=
         && |wider| > |c.inputs0|
         && TotalFileSize(c.inputs1) + TotalFileSize(wider) < 25 * options.maxFileSize
         && |Reached(next, wider)| == |c.inputs1|;
       inputs0 == if take then wider else c.inputs0
  }

  ghost predicate AfterExpansion(files: seq<File>, next: seq<File>, c: Compaction, options: Options, inputs0: seq<File>)
    requires c.inputs0 != []
  {
    exists b, e, wider :: Expanded(files, next, c, options, b, e, wider, inputs0)
  }

  /** The inputs for this seed: its boundary chain, and wider inputs where there is a choice. */
  ghost predicate SetUp(v: Version, level: nat, seed: seq<File>, options: Options, c: Compaction)
    requires level + 1 < |v| && seed != []
  {
    exists first: seq<File> :: first != [] && BoundaryChain(v[level], seed, first)
      && var one := Compaction(level, first, Reached(v[level + 1], first), []);
         if one.inputs1 == [] then c.inputs0 == first
         else AfterExpansion(v[level], v[level + 1], one, options, c.inputs0)
  }

  /** VersionSet::SetupOtherInputs. `pointer` is where the next compaction of the level starts. */
  method SetupOtherInputs(v: Version, level: nat, seed: seq<File>, options: Options) returns (c: Compaction, pointer: InternalKey)
    requires VersionOK(v) && level + 1 < NUM_LEVELS && AllWellFormed(seed) && Seed(v[level], level, seed)
    ensures c.level == level && Chosen(v[level], v[level + 1], c)
    ensures forall f :: f in seed ==> f in c.inputs0
    ensures Covered(seed) ==> Covered(c.Inputs())
    ensures pointer == LargestKey(c.inputs0) && SetUp(v, level, seed, options, c)
    ensures level + 2 < NUM_LEVELS ==>
      c.grandparents == Meeting(v[level + 2], Some(SmallestKey(c.Inputs()).user), Some(LargestKey(c.Inputs()).user))
  {
    hide Covered, BoundaryChain, SetUp, AfterExpansion, Chosen, Disjoint;
    c := FirstInputs(v[level], v[level + 1], level, seed);
    ghost var first := c;
    ChosenHasInputs(v[level], v[level + 1], c);
    if c.inputs1 != [] {
      c := Expand(v[level], v[level + 1], c, options);
    }
    SetUpFrom(v, level, seed, options, first, c);
    ChosenHasInputs(v[level], v[level + 1], c);
    if level + 2 < NUM_LEVELS {
      var allStart, allLimit := GetRange(c.Inputs());
      var grandparents, _, _ := GetOverlappingInputs(v[level + 2], level + 2, Some(allStart.user), Some(allLimit.user));
      c := c.(grandparents := grandparents);
    }
    var start, limit := GetRange(c.inputs0);
    pointer := limit;
  }

  lemma ChosenHasInputs(files: seq<File>, next: seq<File>, c: Compaction)
    requires Chosen(files, next, c)
    ensures c.inputs0 != [] && forall g :: Chosen(files, next, c.(grandparents := g))
  {
  }

  lemma SetUpFrom(v: Version, level: nat, seed: seq<File>, options: Options, one: Compaction, c: Compaction)
    requires level + 1 < |v| && seed != [] && one.inputs0 != [] && BoundaryChain(v[level], seed, one.inputs0)
    requires one == Compaction(level, one.inputs0, Reached(v[level + 1], one.inputs0), [])
    requires if one.inputs1 == [] then c.inputs0 == one.inputs0
             else AfterExpansion(v[level], v[level + 1], one, options, c.inputs0)
    ensures forall g :: SetUp(v, level, seed, options, c.(grandparents := g))
  {
  }

  /** The seed with its boundary files, and what it reaches in the next level. */
  method FirstInputs(files: seq<File>, next: seq<File>, level: nat, seed: seq<File>) returns (c: Compaction)
    requires LevelOK(files, level) && AllWellFormed(next) && AllWellFormed(seed) && Seed(files, level, seed)
    ensures c.level == level && Chosen(files, next, c)
    ensures forall f :: f in seed ==> f in c.inputs0
    ensures forall f :: f in c.inputs0 ==> f in files
    ensures forall f :: f in c.inputs1 ==> f in next
    ensures Covered(seed) ==> Covered(c.Inputs())
    ensures BoundaryChain(files, seed, c.inputs0) && c == Compaction(level, c.inputs0, Reached(next, c.inputs0), [])
  {
    var first := AddBoundaryInputs(files, seed);
    BoundaryMakesRun(files, level, seed, first);
    var smallest, largest := GetRange(first);
    var reached, b, e := GetOverlappingInputs(next, level + 1, Some(smallest.user), Some(largest.user));
    ReachedKeepsCover(next, first);
    MeetingMembers(next, b, e);
    c := Compaction(level, first, reached, []);
  }

  /** Take in more files of the level, if that reaches no more files of the next one. */
  method Expand(files: seq<File>, next: seq<File>, c: Compaction, options: Options) returns (r: Compaction)
    requires LevelOK(files, c.level) && AllWellFormed(next) && Chosen(files, next, c)
    requires forall f :: f in c.inputs0 ==> f in files
    ensures r.level == c.level && Chosen(files, next, r) && r.inputs1 == c.inputs1
    ensures forall f :: f in c.inputs0 ==> f in r.inputs0
    ensures Covered(c.Inputs()) ==> Covered(r.Inputs())
    ensures AfterExpansion(files, next, c, options, r.inputs0)
  {
    hide Covered, WellFormed, Disjoint;
    r := c;
    var start, limit := GetRange(c.Inputs());
    var overlapping, b, e := GetOverlappingInputs(files, c.level, Some(start.user), Some(limit.user));
    ExpandedSeed(files, c, b, e);
    var expanded0 := AddBoundaryInputs(files, overlapping);
    if |expanded0| > |c.inputs0|
       && TotalFileSize(c.inputs1) + TotalFileSize(expanded0) < options.ExpandedCompactionByteSizeLimit() {
      BoundaryMakesRun(files, c.level, overlapping, expanded0);
      var newStart, newLimit := GetRange(expanded0);
      var expanded1, _, _ := GetOverlappingInputs(next, c.level + 1, Some(newStart.user), Some(newLimit.user));
      if |expanded1| == |c.inputs1| {
        ReachesTheSame(next, c.inputs0, expanded0);
        ExpansionCovered(files, c, b, e, expanded0);
        r := Compaction(c.level, expanded0, expanded1, []);
      }
    }
    assert Expanded(files, next, c, options, b, e, expanded0, r.inputs0);
  }

  /** What the wider search finds is again a seed, and it contains the first inputs. */
  lemma ExpandedSeed(files: seq<File>, c: Compaction, b: Bound, e: Bound)
    requires LevelOK(files, c.level) && c.inputs0 != [] && forall f :: f in c.inputs0 ==> f in files
    requires var r := UserRange(c.Inputs()); Widens(r.0, r.1, b, e)
    requires c.level == 0 ==> ClosedRange(files, b, e)
    ensures Seed(files, c.level, Meeting(files, b, e)) && AllWellFormed(Meeting(files, b, e))
    ensures forall f :: f in c.inputs0 ==> f in Meeting(files, b, e)
  {
    InputsOverlap(files, c, b, e);
    MeetingMembers(files, b, e);
    assert c.inputs0[0] in Meeting(files, b, e);
    OverlappingIsSeed(files, c.level, b, e);
  }

  lemma InputsOverlap(files: seq<File>, c: Compaction, b: Bound, e: Bound)
    requires AllWellFormed(files) && c.inputs0 != [] && forall f :: f in c.inputs0 ==> f in files
    requires var r := UserRange(c.Inputs()); Widens(r.0, r.1, b, e)
    ensures forall f :: f in c.inputs0 ==> f in Meeting(files, b, e)
  {
    MeetingMembers(files, b, e);
    HullOfUsers(c.Inputs());
    forall f | f in c.inputs0
      ensures Meets(f, b, e)
    {
      assert f in c.Inputs();
      RangeIsProper(f);
    }
  }

  /** The expansion leaves the files of the next level unchanged. */
  lemma ReachesTheSame(next: seq<File>, first: seq<File>, expanded: seq<File>)
    requires first != [] && expanded != [] && forall f :: f in first ==> f in expanded
    requires |Reached(next, expanded)| == |Reached(next, first)|
    ensures Reached(next, expanded) == Reached(next, first)
  {
    HullOfUsers(first);
    HullOfUsers(expanded);
    var r, s := UserRange(first), UserRange(expanded);
    WiderMeetsMore(next, r.0, r.1, s.0, s.1);
  }

  lemma ReachedKeepsCover(next: seq<File>, first: seq<File>)
    requires first != [] && AllWellFormed(next)
    ensures Covered(first) ==> Covered(first + Reached(next, first))
  {
    var r := UserRange(first);
    MeetingMembers(next, r.0, r.1);
    HullOfUsers(first);
    var p :| p in first && p.smallest.user == SmallestKey(first).user;
    var q :| q in first && q.largest.user == LargestKey(first).user;
    forall f | f in Reached(next, first)
      ensures MeetsHull(first, f)
    {
      assert Meets(f, r.0, r.1);
      assert p.smallest.user <= f.largest.user && f.smallest.user <= q.largest.user;
    }
    if Covered(first) {
      CoverMore(first, Reached(next, first));
    }
  }

  lemma ExpansionCovered(files: seq<File>, c: Compaction, b: Bound, e: Bound, expanded0: seq<File>)
    requires LevelOK(files, c.level) && c.inputs0 != []
    requires c.level > 0 ==> (b, e) == UserRange(c.Inputs())
    requires var r := UserRange(c.Inputs());
             if c.level == 0 then LeastClosed(files, r.0, r.1, b, e) else Widens(r.0, r.1, b, e)
    requires forall f :: f in c.inputs0 ==> f in Meeting(files, b, e)
    requires Meeting(files, b, e) != [] && BoundaryChain(files, Meeting(files, b, e), expanded0)
    ensures Covered(c.Inputs()) ==> Covered(expanded0 + c.inputs1)
  {
    if Covered(c.Inputs()) {
      if c.level == 0 {
        NoBoundaryOfClosed(files, b, e, expanded0);
        ClosedExpansionCovered(files, c, b, e);
      } else {
        SliceExpansionCovered(files, c, expanded0);
      }
    }
  }

  lemma ClosedExpansionCovered(files: seq<File>, c: Compaction, b: Bound, e: Bound)
    requires AllWellFormed(files) && Covered(c.Inputs()) && c.inputs0 != []
    requires var r := UserRange(c.Inputs()); LeastClosed(files, r.0, r.1, b, e)
    requires forall f :: f in c.inputs0 ==> f in Meeting(files, b, e)
    ensures Covered(Meeting(files, b, e) + c.inputs1)
  {
    var r := UserRange(c.Inputs());
    var all := Meeting(files, b, e) + c.inputs1;
    MeetingMembers(files, b, e);
    HullOfUsers(c.Inputs());
    var p :| p in c.Inputs() && p.smallest.user == SmallestKey(c.Inputs()).user;
    var q :| q in c.Inputs() && q.largest.user == LargestKey(c.Inputs()).user;
    forall x, y, user | x in all && y in all && Spans(x, y, user)
      ensures exists h :: h in all && Holds(h, user)
    {
      if InRange(user, r.0, r.1) {
        assert Spans(p, q, user);
        var h :| h in c.Inputs() && Holds(h, user);
        assert h in all;
      } else {
        assert x in c.inputs1 ==> x in c.Inputs();
        assert y in c.inputs1 ==> y in c.Inputs();
        assert InRange(user, b, e);
        var h :| h in files && Meets(h, b, e) && Holds(h, user);
        assert h in all;
      }
    }
  }

  lemma SliceExpansionCovered(files: seq<File>, c: Compaction, expanded0: seq<File>)
    requires AllWellFormed(files) && Disjoint(files) && Covered(c.Inputs()) && c.inputs0 != []
    requires var r := UserRange(c.Inputs());
             && (forall f :: f in c.inputs0 ==> f in Meeting(files, r.0, r.1))
             && Meeting(files, r.0, r.1) != [] && BoundaryChain(files, Meeting(files, r.0, r.1), expanded0)
    ensures Covered(expanded0 + c.inputs1)
  {
    var r := UserRange(c.Inputs());
    var overlapping := Meeting(files, r.0, r.1);
    MeetingMembers(files, r.0, r.1);
    HullOfUsers(c.Inputs());
    var p :| p in c.Inputs() && p.smallest.user == SmallestKey(c.Inputs()).user;
    var q :| q in c.Inputs() && q.largest.user == LargestKey(c.Inputs()).user;
    forall f | f in overlapping
      ensures MeetsHull(c.Inputs(), f)
    {
      assert Meets(f, r.0, r.1);
      assert p.smallest.user <= f.largest.user && f.smallest.user <= q.largest.user;
    }
    CoverMore(c.Inputs(), overlapping);
    SameFilesCovered(c.Inputs() + overlapping, c.inputs1 + overlapping);
    var lo, mid := MeetingIsSlice(files, r.0, r.1);
    var hi := BoundaryRun(files, lo, mid, expanded0);
    ChainCoveredBeside(c.inputs1, files, lo, mid, hi);
    SameFilesCovered(c.inputs1 + expanded0, expanded0 + c.inputs1);
  }

  lemma {:induction false} ChainCoveredBeside(others: seq<File>, files: seq<File>, lo: nat, mid: nat, hi: nat)
    requires AllWellFormed(files) && lo < mid <= hi <= |files| && Covered(others + files[lo..mid])
    requires forall i :: mid <= i < hi ==> files[i - 1].largest.user == files[i].smallest.user
    ensures Covered(others + files[lo..hi])
  {
    if mid < hi {
      hide Covered, WellFormed;
      ChainCoveredBeside(others, files, lo, mid, hi - 1);
      NeighbourMeets(files, hi - 1);
      var init := others + files[lo..hi - 1];
      InSlice(files, lo, hi - 1, hi - 2);
      assert files[hi - 2] in init;
      assert MeetsHull(init, files[hi - 1]);
      CoverOneMore(init, files[hi - 1]);
      assert others + files[lo..hi] == init + [files[hi - 1]];
    }
  }

  ghost predicate AfterPointer(f: File, pointer: Option<InternalKey>) {
    pointer.None? || Less(pointer.value, f.largest)
  }

  /** `f` is the first file after the place where the last compaction of the level ended, or the
      first file of all if there is none. */
  ghost predicate StartsFrom(files: seq<File>, pointer: Option<InternalKey>, f: File) {
    exists i :: && 0 <= i < |files| && f == files[i]
                && (forall j :: 0 <= j < i ==> !AfterPointer(files[j], pointer))
                && (AfterPointer(f, pointer) || (i == 0 && forall g :: g in files ==> !AfterPointer(g, pointer)))
  }

  method PickFile(files: seq<File>, pointer: Option<InternalKey>) returns (f: File)
    requires files != []
    ensures StartsFrom(files, pointer, f)
  {
    for i := 0 to |files|
      invariant forall j :: 0 <= j < i ==> !AfterPointer(files[j], pointer)
    {
      if pointer.None? || Less(pointer.value, files[i].largest) {
        return files[i];
      }
    }
    return files[0];
  }

  lemma OneFileCovered(f: File)
    ensures Covered([f])
  {
    forall x, y, user | x in [f] && y in [f] && Spans(x, y, user)
      ensures exists h :: h in [f] && Holds(h, user)
    {
      assert f in [f] && Holds(f, user);
    }
  }

  /** The compaction was set up from this file. */
  ghost predicate PickedFrom(v: Version, f: File, options: Options, c: Compaction)
    requires c.level + 1 < |v|
  {
    f in c.inputs0 && exists seed :: FileSeeded(v[c.level], c.level, f, seed) && SetUp(v, c.level, seed, options, c)
  }

  /** VersionSet::PickCompaction. `full` is the level whose score asks for a compaction, if
      any; `sought` is the file that too many reads had to skip, if any. */
  method PickCompaction(v: Version, full: Option<nat>, pointers: seq<Option<InternalKey>>,
                        sought: Option<(nat, File)>, options: Options)
    returns (r: Option<Compaction>, next: seq<Option<InternalKey>>)
    requires VersionOK(v) && |pointers| == NUM_LEVELS
    requires full.Some? ==> full.value + 1 < NUM_LEVELS && v[full.value] != []
    requires sought.Some? ==> sought.value.0 + 1 < NUM_LEVELS && sought.value.1 in v[sought.value.0]
    ensures r.None? <==> full.None? && sought.None?
    ensures r.Some? ==> InputsClosed(v, r.value) && Covered(r.value.Inputs())
    ensures r.Some? ==> r.value.level == if full.Some? then full.value else sought.value.0
    ensures full.Some? ==> exists f :: StartsFrom(v[full.value], pointers[full.value], f) && PickedFrom(v, f, options, r.value)
    ensures full.None? && sought.Some? ==> PickedFrom(v, sought.value.1, options, r.value)
    ensures next == if r.Some? then pointers[r.value.level := Some(LargestKey(r.value.inputs0))] else pointers
  {
    next := pointers;
    if full.Some? {
      var f := PickFile(v[full.value], pointers[full.value]);
      var c, pointer := CompactFrom(v, full.value, f, options);
      r, next := Some(c), pointers[full.value := Some(pointer)];
    } else if sought.Some? {
      var c, pointer := CompactFrom(v, sought.value.0, sought.value.1, options);
      r, next := Some(c), pointers[sought.value.0 := Some(pointer)];
    } else {
      r := None;
    }
  }

  /** A compaction starts from one file; at level 0 from all those that the file's range leads to. */
  ghost predicate FileSeeded(files: seq<File>, level: nat, f: File, seed: seq<File>) {
    && seed != []
    && if level == 0 then
         exists b, e :: LeastClosed(files, Some(f.smallest.user), Some(f.largest.user), b, e) && seed == Meeting(files, b, e)
       else seed == [f]
  }

  /** The compaction that starts from one file. */
  method CompactFrom(v: Version, level: nat, f: File, options: Options) returns (c: Compaction, pointer: InternalKey)
    requires VersionOK(v) && level + 1 < NUM_LEVELS && f in v[level]
    ensures c.level == level && InputsClosed(v, c) && Covered(c.Inputs()) && f in c.inputs0
    ensures pointer == LargestKey(c.inputs0)
    ensures exists seed :: FileSeeded(v[level], level, f, seed) && SetUp(v, level, seed, options, c)
  {
    hide SetUp, Chosen, InputsClosed;
    var inputs0 := [f];
    OneFileCovered(f);
    if level == 0 {
      var smallest, largest := GetRange(inputs0);
      var b, e;
      inputs0, b, e := GetOverlappingInputs(v[0], 0, Some(smallest.user), Some(largest.user));
      MeetingMembers(v[0], b, e);
      OverlappingIsSeed(v[0], 0, b, e);
      LevelZeroSeedCovered(v[0], f, b, e);
    } else {
      var i :| 0 <= i < |v[level]| && v[level][i] == f;
      assert v[level][i..i + 1] == [f];
    }
    c, pointer := SetupOtherInputs(v, level, inputs0, options);
    ChosenIsClosed(v, c);
  }

  lemma LevelZeroSeedCovered(files: seq<File>, f: File, b: Bound, e: Bound)
    requires AllWellFormed(files) && f in files
    requires LeastClosed(files, Some(f.smallest.user), Some(f.largest.user), b, e)
    ensures f in Meeting(files, b, e) && Covered(Meeting(files, b, e))
  {
    MeetingMembers(files, b, e);
    RangeIsProper(f);
    assert Meets(f, b, e);
    var all := Meeting(files, b, e);
    forall x, y, user | x in all && y in all && Spans(x, y, user)
      ensures exists h :: h in all && Holds(h, user)
    {
      assert Within(x, b, e) && Within(y, b, e);
      assert InRange(user, b, e);
      if InRange(user, Some(f.smallest.user), Some(f.largest.user)) {
        assert Holds(f, user);
      } else {
        var h :| h in files && Meets(h, b, e) && Holds(h, user);
        assert h in all;
      }
    }
  }

  /** How many of the inputs to take, up to about the size of one output file. */
  method FilesUpTo(inputs: seq<File>, limit: nat) returns (n: nat)
    requires inputs != []
    ensures 0 < n <= |inputs|
    ensures n < |inputs| ==> TotalFileSize(inputs[..n]) >= limit
    ensures n > 1 ==> TotalFileSize(inputs[..n - 1]) < limit
  {
    n := 0;
    var total := 0;
    while n < |inputs| && (n == 0 || total < limit)
      invariant 0 <= n <= |inputs| && total == TotalFileSize(inputs[..n])
      invariant n > 1 ==> TotalFileSize(inputs[..n - 1]) < limit
    {
      assert inputs[..n + 1][..n] == inputs[..n];
      total := total + inputs[n].size;
      n := n + 1;
    }
    assert inputs[..|inputs|] == inputs;
  }

  /** The files from which CompactRange starts: above level 0 the first ones that meet the range, as few as
      make up about one output file. */
  ghost predicate RangeSeeded(files: seq<File>, level: nat, begin: Bound, end: Bound, options: Options, seed: seq<File>) {
    && seed != []
    && if level == 0 then exists b, e :: LeastClosed(files, begin, end, b, e) && seed == Meeting(files, b, e)
       else
         && seed <= Meeting(files, begin, end)
         && (seed != Meeting(files, begin, end) ==> TotalFileSize(seed) >= options.maxFileSize)
         && (|seed| > 1 ==> TotalFileSize(seed[..|seed| - 1]) < options.maxFileSize)
  }

  /** The files from which CompactRange starts, if there are any in the range. */
  method RangeSeed(files: seq<File>, level: nat, begin: Bound, end: Bound, options: Options) returns (seed: seq<File>)
    requires LevelOK(files, level)
    ensures seed == [] <==> forall f :: f in files ==> !Meets(f, begin, end)
    ensures seed != [] ==> Seed(files, level, seed) && AllWellFormed(seed)
    ensures level == 0 ==> forall f :: f in files && Meets(f, begin, end) ==> f in seed
    ensures seed != [] ==> RangeSeeded(files, level, begin, end, options, seed)
  {
    hide LeastClosed, Seed, Disjoint;
    var inputs, b, e := GetOverlappingInputs(files, level, begin, end);
    MeetingMembers(files, b, e);
    if level == 0 {
      WiderFinds(files, begin, end, b, e);
    }
    seed := inputs;
    if inputs != [] {
      OverlappingIsSeed(files, level, b, e);
      if level > 0 {
        assert inputs[0] in files && Meets(inputs[0], begin, end);
        var n := FilesUpTo(inputs, options.maxFileSize);
        PrefixIsSeed(files, level, inputs, n);
        seed := inputs[..n];
        assert seed[..n - 1] == inputs[..n - 1];
        assert n == |inputs| ==> seed == inputs;
      } else {
        SomethingMeets(files, begin, end, b, e);
      }
    }
  }

  /** VersionSet::CompactRange: above level 0 only the first files, up to about the size of
      one output file, are taken. The inputs are closed, but they may leave gaps. */
  method CompactRange(v: Version, level: nat, begin: Bound, end: Bound, options: Options) returns (r: Option<Compaction>)
    requires VersionOK(v) && level + 1 < NUM_LEVELS
    ensures r.None? <==> forall f :: f in v[level] ==> !Meets(f, begin, end)
    ensures r.Some? ==> r.value.level == level && InputsClosed(v, r.value) && Chosen(v[level], v[level + 1], r.value)
    ensures level == 0 ==> forall f :: f in v[0] && Meets(f, begin, end) ==> r.Some? && f in r.value.inputs0
    ensures r.Some? ==> exists seed :: RangeSeeded(v[level], level, begin, end, options, seed) && SetUp(v, level, seed, options, r.value)
  {
    hide SetUp, Chosen, RangeSeeded, InputsClosed, Seed;
    var seed := RangeSeed(v[level], level, begin, end, options);
    if seed == [] {
      return None;
    }
    var c, pointer := SetupOtherInputs(v, level, seed, options);
    ChosenIsClosed(v, c);
    r := Some(c);
  }

  lemma WiderFinds(files: seq<File>, begin: Bound, end: Bound, b: Bound, e: Bound)
    requires LeastClosed(files, begin, end, b, e)
    ensures ClosedRange(files, b, e) && forall f :: f in files && Meets(f, begin, end) ==> Meets(f, b, e)
  {
  }

  lemma PrefixIsSeed(files: seq<File>, level: nat, inputs: seq<File>, i: nat)
    requires level > 0 && Seed(files, level, inputs) && 0 < i <= |inputs|
    ensures Seed(files, level, inputs[..i])
    ensures forall f :: f in inputs[..i] ==> f in inputs
  {
    var lo, hi :| 0 <= lo < hi <= |files| && inputs == files[lo..hi];
    assert inputs[..i] == files[lo..lo + i];
  }

  /** A range that meets no file is closed as it stands. */
  lemma SomethingMeets(files: seq<File>, begin: Bound, end: Bound, b: Bound, e: Bound)
    requires LeastClosed(files, begin, end, b, e) && Meeting(files, b, e) != []
    ensures exists f :: f in files && Meets(f, begin, end)
  {
    MeetingMembers(files, b, e);
    var f := Meeting(files, b, e)[0];
    assert f in files && Meets(f, b, e);
    assert Widens(begin, end, begin, end);
    if !Meets(f, begin, end) {
      assert !ClosedRange(files, begin, end);
    }
  }
}
