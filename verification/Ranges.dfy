/** Ranges of user keys, and the files that meet them (db/version_set.cc). */
module Ranges {
  import opened DbFormat
  import opened Versions

  /** An end of a range; None is the null pointer: no limit on that side. */
  type Bound = Option<UserKey>

  /** The file ends before the range begins. */
  predicate EndsBefore(f: File, begin: Bound) {
    begin.Some? && f.largest.user < begin.value
  }

  /** The file starts after the range ends. */
  predicate StartsAfter(f: File, end: Bound) {
    end.Some? && f.smallest.user > end.value
  }

  predicate Meets(f: File, begin: Bound, end: Bound) {
    !EndsBefore(f, begin) && !StartsAfter(f, end)
  }

  predicate Within(f: File, begin: Bound, end: Bound) {
    && (begin.Some? ==> begin.value <= f.smallest.user)
    && (end.Some? ==> f.largest.user <= end.value)
  }

  predicate Holds(f: File, user: UserKey) {
    f.smallest.user <= user <= f.largest.user
  }

  predicate InRange(user: UserKey, begin: Bound, end: Bound) {
    (begin.Some? ==> begin.value <= user) && (end.Some? ==> user <= end.value)
  }

  /** [b2, e2] contains [b1, e1]. */
  predicate Widens(b1: Bound, e1: Bound, b2: Bound, e2: Bound) {
    && (b2.Some? ==> b1.Some? && b2.value <= b1.value)
    && (e2.Some? ==> e1.Some? && e1.value <= e2.value)
  }

  /** No file reaches across an end of the range. */
  ghost predicate ClosedRange(files: seq<File>, b: Bound, e: Bound) {
    forall f :: f in files && Meets(f, b, e) ==> Within(f, b, e)
  }

  /** The files that meet the range, in the order of `files`. */
  function Meeting(files: seq<File>, b: Bound, e: Bound): seq<File> {
    if files == [] then []
    else
      var rest := Meeting(files[..|files| - 1], b, e);
      if Meets(files[|files| - 1], b, e) then rest + [files[|files| - 1]] else rest
  }

  lemma {:induction false} MeetingMembers(files: seq<File>, b: Bound, e: Bound)
    ensures forall f :: f in Meeting(files, b, e) <==> f in files && Meets(f, b, e)
  {
    if files != [] {
      MeetingMembers(files[..|files| - 1], b, e);
      assert files == files[..|files| - 1] + [files[|files| - 1]];
    }
  }

  /** A wider range meets more files, unless it meets exactly the same ones. */
  lemma {:induction false} WiderMeetsMore(files: seq<File>, b1: Bound, e1: Bound, b2: Bound, e2: Bound)
    requires Widens(b1, e1, b2, e2)
    ensures |Meeting(files, b1, e1)| <= |Meeting(files, b2, e2)|
    ensures |Meeting(files, b1, e1)| == |Meeting(files, b2, e2)| ==> Meeting(files, b1, e1) == Meeting(files, b2, e2)
  {
    if files != [] {
      WiderMeetsMore(files[..|files| - 1], b1, e1, b2, e2);
    }
  }

  ghost function StartsBefore(files: seq<File>, b: Bound): set<File> {
    set f | f in files && b.Some? && f.smallest.user < b.value
  }

  ghost function EndsAfter(files: seq<File>, e: Bound): set<File> {
    set f | f in files && e.Some? && f.largest.user > e.value
  }

  /** Every user key of the widened range is in the original range or in a file that meets it. */
  ghost predicate Connected(files: seq<File>, begin: Bound, end: Bound, b: Bound, e: Bound) {
    forall user: UserKey :: InRange(user, b, e) && !InRange(user, begin, end)
      ==> exists f :: f in files && Meets(f, b, e) && Holds(f, user)
  }

  /** [b, e] is what GetOverlappingInputs must widen [begin, end] to at level 0. */
  ghost predicate LeastClosed(files: seq<File>, begin: Bound, end: Bound, b: Bound, e: Bound) {
    && Widens(begin, end, b, e) && ClosedRange(files, b, e) && Connected(files, begin, end, b, e)
    && forall b', e' :: Widens(begin, end, b', e') && ClosedRange(files, b', e') ==> Widens(b, e, b', e')
  }

  /** Version::GetOverlappingInputs. At level 0 a file that reaches outside the range widens
      it and restarts the search. `b` and `e` are the final ends of the range. */
  method GetOverlappingInputs(files: seq<File>, level: nat, begin: Bound, end: Bound)
    returns (inputs: seq<File>, b: Bound, e: Bound)
    requires AllWellFormed(files)
    ensures inputs == Meeting(files, b, e)
    ensures level > 0 ==> b == begin && e == end
    ensures level == 0 ==> LeastClosed(files, begin, end, b, e)
  {
    inputs, b, e := [], begin, end;
    var i := 0;
    while i < |files|
      invariant 0 <= i <= |files|
      invariant inputs == Meeting(files[..i], b, e)
      invariant level > 0 ==> b == begin && e == end
      invariant Widens(begin, end, b, e)
      invariant level == 0 ==> forall f :: f in files[..i] && Meets(f, b, e) ==> Within(f, b, e)
      invariant forall b', e' :: Widens(begin, end, b', e') && ClosedRange(files, b', e') ==> Widens(b, e, b', e')
      invariant Connected(files, begin, end, b, e)
      decreases StartsBefore(files, b), EndsAfter(files, e), |files| - i
    {
      var f := files[i];
      i := i + 1;
      assert files[..i][..i - 1] == files[..i - 1];
      if b.Some? && f.largest.user < b.value {
        // completely before the range
      } else if e.Some? && f.smallest.user > e.value {
        // completely after the range
      } else {
        inputs := inputs + [f];
        if level == 0 {
          if b.Some? && f.smallest.user < b.value {
            assert f in StartsBefore(files, b);
            ConnectedByFile(files, begin, end, b, e, f, Some(f.smallest.user), e);
            LeastAfterFile(files, begin, end, b, e, f);
            b := Some(f.smallest.user);
            assert f !in StartsBefore(files, b);
            inputs := [];
            i := 0;
          } else if e.Some? && f.largest.user > e.value {
            assert f in EndsAfter(files, e);
            ConnectedByFile(files, begin, end, b, e, f, b, Some(f.largest.user));
            LeastAfterFile(files, begin, end, b, e, f);
            e := Some(f.largest.user);
            assert f !in EndsAfter(files, e);
            inputs := [];
            i := 0;
          }
        }
      }
    }
    assert files[..|files|] == files;
  }

  lemma ConnectedByFile(files: seq<File>, begin: Bound, end: Bound, b: Bound, e: Bound, f: File, b2: Bound, e2: Bound)
    requires f in files && WellFormed(f) && Meets(f, b, e) && Connected(files, begin, end, b, e) && Widens(b, e, b2, e2)
    requires (b2 == b || (b.Some? && b2 == Some(f.smallest.user))) && (e2 == e || (e.Some? && e2 == Some(f.largest.user)))
    ensures Connected(files, begin, end, b2, e2)
  {
    forall user: UserKey | InRange(user, b2, e2) && !InRange(user, begin, end)
      ensures exists g :: g in files && Meets(g, b2, e2) && Holds(g, user)
    {
      if InRange(user, b, e) {
        var g :| g in files && Meets(g, b, e) && Holds(g, user);
        assert Meets(g, b2, e2);
      } else {
        assert Meets(f, b2, e2) && Holds(f, user);
      }
    }
  }

  lemma LeastAfterFile(files: seq<File>, begin: Bound, end: Bound, b: Bound, e: Bound, f: File)
    requires f in files && Meets(f, b, e)
    requires forall b', e' :: Widens(begin, end, b', e') && ClosedRange(files, b', e') ==> Widens(b, e, b', e')
    ensures forall b', e' :: Widens(begin, end, b', e') && ClosedRange(files, b', e') ==> Within(f, b', e')
  {
    forall b', e' | Widens(begin, end, b', e') && ClosedRange(files, b', e')
      ensures Within(f, b', e')
    {
      assert Meets(f, b', e');
    }
  }

  // ---- The files of a sorted level that meet a range are consecutive

  lemma {:induction false} MeetingOfSlice(files: seq<File>, b: Bound, e: Bound, lo: nat, hi: nat)
    requires lo <= hi <= |files|
    requires forall i :: 0 <= i < |files| ==> (Meets(files[i], b, e) <==> lo <= i < hi)
    ensures Meeting(files, b, e) == files[lo..hi]
  {
    if files != [] {
      var n := |files| - 1;
      var init := files[..n];
      if hi == |files| && lo < hi {
        MeetingOfSlice(init, b, e, lo, n);
        assert files[lo..hi] == init[lo..n] + [files[n]];
      } else {
        MeetingOfSlice(init, b, e, if lo < n then lo else n, if hi < n then hi else n);
        assert files[lo..hi] == init[if lo < n then lo else n..if hi < n then hi else n];
      }
    }
  }

  lemma MeetingIsSlice(files: seq<File>, b: Bound, e: Bound) returns (lo: nat, hi: nat)
    requires AllWellFormed(files) && Disjoint(files)
    ensures lo <= hi <= |files| && Meeting(files, b, e) == files[lo..hi]
    ensures forall i :: 0 <= i < lo ==> EndsBefore(files[i], b)
    ensures forall i :: hi <= i < |files| ==> StartsAfter(files[i], e)
    ensures lo < hi ==> forall i :: lo <= i < hi ==> Meets(files[i], b, e)
  {
    LevelAscends(files);
    lo := 0;
    while lo < |files| && EndsBefore(files[lo], b)
      invariant 0 <= lo <= |files|
      invariant forall i :: 0 <= i < lo ==> EndsBefore(files[i], b)
    {
      lo := lo + 1;
    }
    hi := lo;
    while hi < |files| && !StartsAfter(files[hi], e)
      invariant lo <= hi <= |files|
      invariant forall i :: lo <= i < hi ==> Meets(files[i], b, e)
    {
      assert lo < hi ==> files[lo].largest.user <= files[hi].smallest.user;
      hi := hi + 1;
    }
    MeetingOfSlice(files, b, e, lo, hi);
  }

  lemma LevelAscends(files: seq<File>)
    requires AllWellFormed(files) && Disjoint(files)
    ensures forall i :: 0 <= i < |files| ==> files[i].smallest.user <= files[i].largest.user
    ensures forall i, j :: 0 <= i < j < |files| ==> files[i].largest.user <= files[j].smallest.user
  {
    forall i | 0 <= i < |files|
      ensures files[i].smallest.user <= files[i].largest.user
    {
      RangeIsProper(files[i]);
    }
  }

  lemma RangeIsProper(f: File)
    requires WellFormed(f)
    ensures f.smallest == f.largest || Before(f.smallest, f.largest)
    ensures f.smallest.user <= f.largest.user
  {
    EntryWithinFile(f, f.entries[0]);
  }
}
