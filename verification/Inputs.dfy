/** Choosing the inputs of a compaction (db/version_set.cc). */
module Inputs {
  import opened DbFormat
  import opened Versions
  import opened Ranges

  /** Options that bound the size of a compaction. */
  datatype Options = Options(maxFileSize: nat) {
    function MaxGrandParentOverlapBytes(): nat { 10 * maxFileSize }
    function ExpandedCompactionByteSizeLimit(): nat { 25 * maxFileSize }
  }

  function TotalFileSize(files: seq<File>): nat {
    if files == [] then 0 else TotalFileSize(files[..|files| - 1]) + files[|files| - 1].size
  }

  // ---- The hull of a list of files

  function SmallestKey(files: seq<File>): InternalKey
    requires files != []
  {
    if |files| == 1 then files[0].smallest
    else
      var k := SmallestKey(files[..|files| - 1]);
      if Less(files[|files| - 1].smallest, k) then files[|files| - 1].smallest else k
  }

  function LargestKey(files: seq<File>): InternalKey
    requires files != []
  {
    if |files| == 1 then files[0].largest
    else
      var k := LargestKey(files[..|files| - 1]);
      if Less(k, files[|files| - 1].largest) then files[|files| - 1].largest else k
  }

  lemma {:induction false} HullBounds(files: seq<File>)
    requires files != []
    ensures forall f :: f in files ==> !Less(f.smallest, SmallestKey(files)) && !Less(LargestKey(files), f.largest)
    ensures exists f :: f in files && f.smallest == SmallestKey(files)
    ensures exists f :: f in files && f.largest == LargestKey(files)
  {
    var n := |files| - 1;
    if n == 0 {
      assert files[0] in files;
    } else {
      var init := files[..n];
      assert files == init + [files[n]];
      HullBounds(init);
      var f :| f in init && f.smallest == SmallestKey(init);
      var g :| g in init && g.largest == LargestKey(init);
      assert f in files && g in files && files[n] in files;
    }
  }

  /** VersionSet::GetRange. */
  method GetRange(inputs: seq<File>) returns (smallest: InternalKey, largest: InternalKey)
    requires inputs != []
    ensures smallest == SmallestKey(inputs) && largest == LargestKey(inputs)
  {
    smallest, largest := inputs[0].smallest, inputs[0].largest;
    for i := 0 to |inputs|
      invariant i == 0 ==> smallest == inputs[0].smallest && largest == inputs[0].largest
      invariant i > 0 ==> smallest == SmallestKey(inputs[..i]) && largest == LargestKey(inputs[..i])
    {
      var f := inputs[i];
      if i == 0 {
        smallest, largest := f.smallest, f.largest;
      } else {
        assert inputs[..i + 1][..i] == inputs[..i];
        if Less(f.smallest, smallest) {
          smallest := f.smallest;
        }
        if Less(largest, f.largest) {
          largest := f.largest;
        }
      }
    }
    assert inputs[..|inputs|] == inputs;
  }

  // ---- Boundary files

  /** `f` continues the user key at which `largest` ends. */
  predicate Boundary(f: File, largest: InternalKey) {
    Less(largest, f.smallest) && f.smallest.user == largest.user
  }

  /** `f` is the first of the boundary files. */
  ghost predicate FirstBoundary(files: seq<File>, f: File, largest: InternalKey) {
    && f in files && Boundary(f, largest)
    && forall g :: g in files && Boundary(g, largest) ==> !Less(g.smallest, f.smallest)
  }

  method FindSmallestBoundaryFile(files: seq<File>, largest: InternalKey) returns (r: Option<File>)
    ensures r.None? ==> forall f :: f in files ==> !Boundary(f, largest)
    ensures r.Some? ==> FirstBoundary(files, r.value, largest)
  {
    r := None;
    for i := 0 to |files|
      invariant r.None? ==> forall f :: f in files[..i] ==> !Boundary(f, largest)
      invariant r.Some? ==> FirstBoundary(files[..i], r.value, largest)
    {
      var f := files[i];
      assert files[..i + 1] == files[..i] + [f];
      if Less(largest, f.smallest) && f.smallest.user == largest.user {
        if r.None? || Less(f.smallest, r.value.smallest) {
          r := Some(f);
        }
      }
    }
    assert files[..|files|] == files;
  }

  /** Each file that `r` adds to `inputs` is the first boundary file of those before it. */
  ghost predicate Links(files: seq<File>, inputs: seq<File>, r: seq<File>)
    requires inputs != []
  {
    || r == inputs
    || (&& |r| > |inputs|
        && var init := r[..|r| - 1];
           Links(files, inputs, init) && FirstBoundary(files, r[|r| - 1], LargestKey(init)) && r[|r| - 1] !in init)
  }

  /** `r` extends `inputs` with the whole chain of files that split a user key. */
  ghost predicate BoundaryChain(files: seq<File>, inputs: seq<File>, r: seq<File>)
    requires inputs != []
  {
    && Links(files, inputs, r)
    && forall f :: f in files ==> !Boundary(f, LargestKey(r))
  }

  ghost function FilesAfter(files: seq<File>, k: InternalKey): set<File> {
    set f | f in files && Less(k, f.smallest)
  }

  /** AddBoundaryInputs: without the rest of a split user key, a compaction would leave older
      entries at the level above the newer ones. */
  method AddBoundaryInputs(files: seq<File>, inputs: seq<File>) returns (r: seq<File>)
    requires AllWellFormed(files) && AllWellFormed(inputs)
    ensures inputs == [] ==> r == []
    ensures inputs != [] ==> BoundaryChain(files, inputs, r)
  {
    r := inputs;
    if inputs == [] {
      return;
    }
    var _, largest := GetRange(inputs);
    var searching := true;
    while searching
      invariant r != [] && AllWellFormed(r) && largest == LargestKey(r)
      invariant Links(files, inputs, r)
      invariant !searching ==> forall f :: f in files ==> !Boundary(f, largest)
      decreases searching, FilesAfter(files, largest)
    {
      var f := FindSmallestBoundaryFile(files, largest);
      if f.Some? {
        BoundaryExtends(files, inputs, r, f.value);
        r := r + [f.value];
        largest := f.value.largest;
      } else {
        searching := false;
      }
    }
  }

  lemma {:induction false} BoundaryExtends(files: seq<File>, inputs: seq<File>, r: seq<File>, f: File)
    requires AllWellFormed(files) && AllWellFormed(r) && inputs != [] && Links(files, inputs, r)
    requires FirstBoundary(files, f, LargestKey(r))
    ensures Links(files, inputs, r + [f]) && LargestKey(r + [f]) == f.largest
    ensures FilesAfter(files, f.largest) < FilesAfter(files, LargestKey(r))
  {
    RangeIsProper(f);
    HullBounds(r);
    assert (r + [f])[..|r|] == r;
    assert f in FilesAfter(files, LargestKey(r)) && f !in FilesAfter(files, f.largest);
  }

  // ---- On a sorted level the chosen files are consecutive

  lemma {:induction false} SliceHull(files: seq<File>, lo: nat, hi: nat)
    requires AllWellFormed(files) && Disjoint(files) && lo < hi <= |files|
    ensures SmallestKey(files[lo..hi]) == files[lo].smallest
    ensures LargestKey(files[lo..hi]) == files[hi - 1].largest
  {
    if lo + 1 < hi {
      SliceHull(files, lo, hi - 1);
      assert files[lo..hi][..hi - 1 - lo] == files[lo..hi - 1];
      RangeIsProper(files[lo]);
      RangeIsProper(files[hi - 1]);
      assert Before(files[lo].largest, files[hi - 1].smallest);
      assert hi - 2 == lo || Before(files[lo].largest, files[hi - 2].smallest);
      RangeIsProper(files[hi - 2]);
      assert Before(files[hi - 2].largest, files[hi - 1].smallest);
    }
  }

  /** No user key is split between files[hi - 1] and files[hi]. */
  predicate CleanCut(files: seq<File>, hi: nat) {
    0 < hi < |files| ==> files[hi - 1].largest.user < files[hi].smallest.user
  }

  /** Every two neighbours in files[lo..hi] share a user key. */
  predicate Chained(files: seq<File>, lo: nat, hi: nat) {
    hi <= |files| && forall i :: lo < i < hi ==> files[i - 1].largest.user == files[i].smallest.user
  }

  lemma {:induction false} BoundaryOfSlice(files: seq<File>, lo: nat, mid: nat, r: seq<File>)
    requires AllWellFormed(files) && Disjoint(files) && lo < mid <= |files|
    requires Links(files, files[lo..mid], r)
    ensures mid <= lo + |r| <= |files| && r == files[lo..lo + |r|]
    ensures Chained(files, mid - 1, lo + |r|)
  {
    if r != files[lo..mid] {
      var init, f := r[..|r| - 1], r[|r| - 1];
      assert r == init + [f];
      assert FirstBoundary(files, f, LargestKey(init));
      BoundaryOfSlice(files, lo, mid, init);
      var hi := lo + |init|;
      NextInSlice(files, lo, hi, f, LargestKey(init));
      assert init + [f] == files[lo..hi + 1];
    }
  }

  lemma NextInSlice(files: seq<File>, lo: nat, hi: nat, f: File, largest: InternalKey)
    requires AllWellFormed(files) && Disjoint(files) && lo < hi <= |files|
    requires largest == LargestKey(files[lo..hi]) && FirstBoundary(files, f, largest)
    ensures hi < |files| && f == files[hi] && files[hi - 1].largest.user == files[hi].smallest.user
    ensures files[lo..hi + 1] == files[lo..hi] + [f]
  {
    SliceHull(files, lo, hi);
    NextBoundary(files, hi, f);
  }

  lemma NextBoundary(files: seq<File>, hi: nat, f: File)
    requires AllWellFormed(files) && Disjoint(files) && 0 < hi <= |files|
    requires FirstBoundary(files, f, files[hi - 1].largest)
    ensures hi < |files| && f == files[hi] && files[hi - 1].largest.user == files[hi].smallest.user
  {
    var j :| 0 <= j < |files| && files[j] == f;
    SmallestNotAfter(files, j, hi - 1);
    if j > hi {
      BoundaryBetween(files, hi, j);
    }
  }

  lemma SmallestNotAfter(files: seq<File>, j: nat, i: nat)
    requires AllWellFormed(files) && Disjoint(files) && j < |files| && i < |files|
    ensures j <= i ==> !Less(files[i].largest, files[j].smallest)
  {
    RangeIsProper(files[i]);
    RangeIsProper(files[j]);
    assert j < i ==> Before(files[j].largest, files[i].smallest);
  }

  lemma BoundaryBetween(files: seq<File>, hi: nat, j: nat)
    requires AllWellFormed(files) && Disjoint(files) && 0 < hi < j < |files|
    requires Boundary(files[j], files[hi - 1].largest)
    ensures Boundary(files[hi], files[hi - 1].largest) && Less(files[hi].smallest, files[j].smallest)
  {
    RangeIsProper(files[hi]);
    assert Before(files[hi - 1].largest, files[hi].smallest);
    assert Before(files[hi].largest, files[j].smallest);
  }

  /** On a sorted level AddBoundaryInputs extends a run of files to a run that ends cleanly. */
  lemma BoundaryRun(files: seq<File>, lo: nat, mid: nat, r: seq<File>) returns (hi: nat)
    requires AllWellFormed(files) && Disjoint(files) && lo < mid <= |files|
    requires BoundaryChain(files, files[lo..mid], r)
    ensures mid <= hi <= |files| && r == files[lo..hi] && CleanCut(files, hi)
    ensures Chained(files, mid - 1, hi)
  {
    hi := lo + |r|;
    BoundaryOfSlice(files, lo, mid, r);
    NoBoundaryIsClean(files, lo, hi, r);
  }

  lemma NoBoundaryIsClean(files: seq<File>, lo: nat, hi: nat, r: seq<File>)
    requires AllWellFormed(files) && Disjoint(files) && lo < hi <= |files| && r == files[lo..hi]
    requires forall f :: f in files ==> !Boundary(f, LargestKey(r))
    ensures CleanCut(files, hi)
  {
    SliceHull(files, lo, hi);
    LevelAscends(files);
    if hi < |files| {
      assert Before(files[hi - 1].largest, files[hi].smallest);
      assert !Boundary(files[hi], files[hi - 1].largest);
    }
  }
}
