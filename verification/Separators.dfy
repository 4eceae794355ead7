/** Short keys between two keys (util/comparator.cc, db/dbformat.cc), on bytes. */
module Separators {
  import opened Bytes

  type Str = seq<byte>

  /** Slice::compare(a, b) < 0. */
  predicate Less(a: Str, b: Str) {
    b != [] && (a == [] || a[0] < b[0] || (a[0] == b[0] && Less(a[1..], b[1..])))
  }

  lemma {:induction false} LessTotal(a: Str, b: Str)
    ensures (Less(a, b) || a == b || Less(b, a)) && !(Less(a, b) && Less(b, a)) && !Less(a, a)
  {
    if a != [] {
      LessTotal(a[1..], a[1..]);
      if b != [] {
        LessTotal(a[1..], b[1..]);
        assert a == [a[0]] + a[1..] && b == [b[0]] + b[1..];
      }
    }
  }

  lemma {:induction false} LessTransitive(a: Str, b: Str, c: Str)
    requires Less(a, b) && Less(b, c)
    ensures Less(a, c)
  {
    if a != [] && a[0] == b[0] == c[0] {
      LessTransitive(a[1..], b[1..], c[1..]);
    }
  }

  /** Two strings with a common prefix compare as what follows it. */
  lemma {:induction false} LessBehindPrefix(a: Str, b: Str, n: nat)
    requires n <= |a| && n <= |b| && a[..n] == b[..n]
    ensures Less(a, b) <==> Less(a[n..], b[n..])
  {
    if n > 0 {
      assert a[0] == a[..n][0] == b[..n][0] == b[0];
      assert a[1..][..n - 1] == a[..n][1..] && b[1..][..n - 1] == b[..n][1..];
      LessBehindPrefix(a[1..], b[1..], n - 1);
      assert a[1..][n - 1..] == a[n..] && b[1..][n - 1..] == b[n..];
    }
  }

  /** `r` is `s` cut behind position `i`, with that byte raised. */
  lemma RaisedIsGreater(s: Str, i: nat, b: byte, t: Str)
    requires i < |s| && s[i] < b
    ensures Less(s, s[..i] + [b])
    ensures i < |t| && t[..i] == s[..i] && b < t[i] ==> Less(s[..i] + [b], t)
  {
    var r := s[..i] + [b];
    assert r[..i] == s[..i] && r[i..] == [b];
    LessBehindPrefix(s, r, i);
    assert s[i..][0] == s[i];
    if i < |t| && t[..i] == s[..i] && b < t[i] {
      LessBehindPrefix(r, t, i);
      assert t[i..][0] == t[i];
    }
  }

  /** The strings first differ at `i`, and there is a byte between those that they have there. */
  predicate Gap(start: Str, limit: Str, i: nat) {
    i < |start| && i < |limit| && start[..i] == limit[..i] && start[i] < 0xff && start[i] + 1 < limit[i]
  }

  /** No string between the two is shorter than one that ends at the gap. */
  lemma NoneShorter(start: Str, limit: Str, i: nat, t: Str)
    requires Gap(start, limit, i) && Less(start, t) && Less(t, limit)
    ensures |t| > i
  {
    if |t| <= i {
      var n := |t|;
      assert start[..n] == start[..i][..n] && limit[..n] == limit[..i][..n];
      if t == start[..n] {
        LessBehindPrefix(start, t, n);
      } else {
        SamePrefix(start, limit, t);
      }
    }
  }

  /** Nothing that differs from a common prefix lies between the two strings. */
  lemma {:induction false} SamePrefix(start: Str, limit: Str, t: Str)
    requires |t| <= |start| && |t| <= |limit| && start[..|t|] == limit[..|t|] && t != start[..|t|]
    ensures !(Less(start, t) && Less(t, limit))
  {
    var n := |t|;
    assert start[..n][0] == start[0] && limit[..n][0] == limit[0];
    if t[0] == start[0] {
      assert start[1..][..n - 1] == start[..n][1..] && limit[1..][..n - 1] == limit[..n][1..];
      assert t == [t[0]] + t[1..] && start[..n] == [start[0]] + start[1..][..n - 1];
      SamePrefix(start[1..], limit[1..], t[1..]);
    }
  }

  /** `r` is as short as any string between the two. */
  ghost predicate ShortestBetween(start: Str, r: Str, limit: Str) {
    Less(start, r) && Less(r, limit) && forall t :: Less(start, t) && Less(t, limit) ==> |r| <= |t|
  }

  /** BytewiseComparatorImpl::FindShortestSeparator: a shortest string between the two where they differ by more
      than one, and otherwise no change. */
  method FindShortestSeparator(start: Str, limit: Str) returns (r: Str)
    ensures forall i: nat :: Gap(start, limit, i) ==> |r| == i + 1 && ShortestBetween(start, r, limit)
    ensures r != start ==> |r| > 0 && Gap(start, limit, |r| - 1)
    ensures r == start || (Less(start, r) && Less(r, limit) && |r| <= |start|)
  {
    var minLength := if |start| < |limit| then |start| else |limit|;
    var diffIndex := 0;
    while diffIndex < minLength && start[diffIndex] == limit[diffIndex]
      invariant diffIndex <= minLength && start[..diffIndex] == limit[..diffIndex]
    {
      assert start[..diffIndex + 1] == start[..diffIndex] + [start[diffIndex]];
      assert limit[..diffIndex + 1] == limit[..diffIndex] + [limit[diffIndex]];
      diffIndex := diffIndex + 1;
    }
    r := start;
    if diffIndex < minLength {
      var diffByte := start[diffIndex];
      if diffByte < 0xff && diffByte + 1 < limit[diffIndex] {
        RaisedIsGreater(start, diffIndex, diffByte + 1, limit);
        r := start[..diffIndex] + [diffByte + 1];
        assert Gap(start, limit, diffIndex);
        forall t | Less(start, t) && Less(t, limit)
          ensures |r| <= |t|
        {
          NoneShorter(start, limit, diffIndex, t);
        }
      }
    }
    forall i: nat | Gap(start, limit, i)
      ensures i == diffIndex
    {
      FirstDifference(start, limit, i, diffIndex);
    }
  }

  lemma Within(a: Str, b: Str, n: nat, i: nat)
    requires n <= |a| && n <= |b| && a[..n] == b[..n]
    ensures i < n ==> a[i] == b[i]
  {
    assert i < n ==> a[i] == a[..n][i] && b[i] == b[..n][i];
  }

  lemma FirstDifference(a: Str, b: Str, i: nat, j: nat)
    requires i < |a| && i < |b| && a[..i] == b[..i] && a[i] != b[i]
    requires j <= |a| && j <= |b| && a[..j] == b[..j] && (j < |a| && j < |b| ==> a[j] != b[j])
    ensures i == j
  {
    Within(a, b, j, i);
    Within(a, b, i, j);
  }

  /** The first byte that is not the highest is at `i`. */
  predicate Raisable(key: Str, i: nat) {
    i < |key| && key[i] != 0xff && forall j :: 0 <= j < i ==> key[j] == 0xff
  }

  /** No string after the key is shorter than one that ends there. */
  lemma {:induction false} NoneAfterIsShorter(key: Str, i: nat, t: Str)
    requires Raisable(key, i) && Less(key, t)
    ensures |t| > i
  {
    if i > 0 {
      NoneAfterIsShorter(key[1..], i - 1, t[1..]);
    }
  }

  /** BytewiseComparatorImpl::FindShortSuccessor: a shortest string after the key, unless all its bytes are the
      highest. */
  method FindShortSuccessor(key: Str) returns (r: Str)
    ensures forall i: nat :: Raisable(key, i) ==> |r| == i + 1 && Less(key, r) && forall t :: Less(key, t) ==> |r| <= |t|
    ensures r != key ==> |r| > 0 && Raisable(key, |r| - 1)
    ensures r == key || (Less(key, r) && |r| <= |key|)
  {
    for i := 0 to |key|
      invariant forall j :: 0 <= j < i ==> key[j] == 0xff
    {
      if key[i] != 0xff {
        RaisedIsGreater(key, i, key[i] + 1, []);
        r := key[..i] + [key[i] + 1];
        assert Raisable(key, i);
        forall t | Less(key, t)
          ensures |r| <= |t|
        {
          NoneAfterIsShorter(key, i, t);
        }
        return;
      }
    }
    return key;
  }

  // ---- Internal keys

  /** A user key and its packed sequence number and type. */
  datatype Internal = Internal(user: Str, tag: nat)

  /** The tag that sorts first: the largest sequence number, and the type for seeking. */
  const FIRST_TAG: nat := 0xff_ffff_ffff_ffff * 0x100 + 1

  predicate InternalLess(a: Internal, b: Internal) {
    Less(a.user, b.user) || (a.user == b.user && a.tag > b.tag)
  }

  /** `r` may stand in the index between `start`, the last key of a block, and `limit`, the first of
      the next: it is the last key itself, or its user key lies strictly between the two. */
  ghost predicate Separates(start: Internal, r: Internal, limit: Internal) {
    r == start || (Less(start.user, r.user) && Less(r.user, limit.user))
  }

  /** InternalKeyComparator::FindShortestSeparator, for any user comparator with the contract of
      FindShortestSeparator above. */
  method FindShortestInternalSeparator(start: Internal, limit: Internal) returns (r: Internal)
    ensures Separates(start, r, limit)
    ensures forall i: nat :: Gap(start.user, limit.user, i) && i + 1 < |start.user| ==> r.tag == FIRST_TAG && |r.user| == i + 1
    ensures r != start ==> |r.user| < |start.user| && Gap(start.user, limit.user, |r.user| - 1)
    ensures InternalLess(start, limit) ==> !InternalLess(r, start) && InternalLess(r, limit)
  {
    var tmp := FindShortestSeparator(start.user, limit.user);
    LessTotal(start.user, tmp);
    r := start;
    if |tmp| < |start.user| && Less(start.user, tmp) {
      r := Internal(tmp, FIRST_TAG);
    }
    LessTotal(r.user, start.user);
  }

  method FindShortInternalSuccessor(key: Internal) returns (r: Internal)
    ensures r == key || Less(key.user, r.user)
    ensures forall i: nat :: Raisable(key.user, i) && i + 1 < |key.user| ==> r.tag == FIRST_TAG && |r.user| == i + 1
    ensures r != key ==> |r.user| < |key.user| && Raisable(key.user, |r.user| - 1)
    ensures !InternalLess(r, key)
  {
    var tmp := FindShortSuccessor(key.user);
    r := key;
    if |tmp| < |key.user| && Less(key.user, tmp) {
      r := Internal(tmp, FIRST_TAG);
    }
    LessTotal(r.user, key.user);
  }
}
