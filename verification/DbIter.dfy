/** DBIter: the user's view of the internal entries at a snapshot (db/db_iter.cc). */
module DbIter {
  import opened DbFormat
  import opened Versions
  import opened Lookup
  import opened Cursors

  // ---- The snapshot view, by positions in the internal run

  /** Position `i` holds the newest visible entry of its user key, and that is a value. */
  predicate Shows(es: seq<Entry>, snap: SequenceNumber, i: nat) {
    && i < |es| && es[i].key.sequence <= snap && es[i].key.kind.TypeValue?
    && forall j :: 0 <= j < i && es[j].key.user == es[i].key.user ==> es[j].key.sequence > snap
  }

  /** The positions below `n` that a reader at `snap` sees, in order. */
  function Listing(es: seq<Entry>, snap: SequenceNumber, n: nat): (r: seq<nat>)
    requires n <= |es|
    ensures forall k :: 0 <= k < |r| ==> r[k] < n && Shows(es, snap, r[k])
  {
    if n == 0 then [] else Listing(es, snap, n - 1) + if Shows(es, snap, n - 1) then [n - 1] else []
  }

  function View(es: seq<Entry>, snap: SequenceNumber): seq<nat> {
    Listing(es, snap, |es|)
  }

  lemma ListingNext(es: seq<Entry>, snap: SequenceNumber, init: seq<nat>, n: nat)
    requires 0 < n <= |es| && forall i :: i in init <==> 0 <= i < n - 1 && Shows(es, snap, i)
    requires forall a, b :: 0 <= a < b < |init| ==> init[a] < init[b]
    ensures var r := init + if Shows(es, snap, n - 1) then [n - 1] else [];
      && (forall i :: i in r <==> 0 <= i < n && Shows(es, snap, i))
      && (forall a, b :: 0 <= a < b < |r| ==> r[a] < r[b])
  {
    assert forall a :: 0 <= a < |init| ==> init[a] in init;
  }

  lemma {:induction false} ListingIsExact(es: seq<Entry>, snap: SequenceNumber, n: nat)
    requires n <= |es|
    ensures forall i :: i in Listing(es, snap, n) <==> 0 <= i < n && Shows(es, snap, i)
    ensures forall a, b :: 0 <= a < b < |Listing(es, snap, n)| ==> Listing(es, snap, n)[a] < Listing(es, snap, n)[b]
  {
    if n > 0 {
      ListingIsExact(es, snap, n - 1);
      ListingNext(es, snap, Listing(es, snap, n - 1), n);
    }
  }

  /** The view is the snapshot map: it lists exactly the user keys that a read finds, once
      each and in order, with the values that it finds. */
  lemma ViewIsSnapshotMap(es: seq<Entry>, snap: SequenceNumber, user: UserKey, value: Value)
    requires Sorted(es)
    ensures (exists k :: 0 <= k < |View(es, snap)| && es[View(es, snap)[k]].key.user == user
                      && es[View(es, snap)[k]].value == value)
       <==> Read(Elements(es), user, snap) == Some(value)
  {
    ListingIsExact(es, snap, |es|);
    RunIsUnique(es);
    NothingOrNewest(Elements(es), user, snap);
    if k :| 0 <= k < |View(es, snap)| && es[View(es, snap)[k]].key.user == user && es[View(es, snap)[k]].value == value {
      var i := View(es, snap)[k];
      assert i in View(es, snap);
      ShownIsNewest(es, snap, i);
      ReadOfNewest(Elements(es), user, snap, es[i]);
    }
    if Read(Elements(es), user, snap) == Some(value) {
      var e :| Newest(Elements(es), user, snap, e);
      ReadOfNewest(Elements(es), user, snap, e);
      var i :| 0 <= i < |es| && es[i] == e;
      forall j | 0 <= j < i && es[j].key.user == user
        ensures es[j].key.sequence > snap
      {
        assert es[j] in Elements(es) && Before(es[j].key, e.key);
      }
      assert Shows(es, snap, i);
      assert i in View(es, snap);
      var k :| 0 <= k < |View(es, snap)| && View(es, snap)[k] == i;
    }
  }

  lemma ShownIsNewest(es: seq<Entry>, snap: SequenceNumber, i: nat)
    requires Sorted(es) && Shows(es, snap, i)
    ensures Newest(Elements(es), es[i].key.user, snap, es[i])
  {
    forall x | x in Elements(es) && x.key.user == es[i].key.user && x.key.sequence <= snap
      ensures x.key.sequence <= es[i].key.sequence
    {
      var j :| 0 <= j < |es| && es[j] == x;
      assert i < j ==> Before(es[i].key, es[j].key);
    }
  }

  lemma ViewKeysAscend(es: seq<Entry>, snap: SequenceNumber, a: nat, b: nat)
    requires Sorted(es) && a < b < |View(es, snap)|
    ensures View(es, snap)[a] < |es| && View(es, snap)[b] < |es|
    ensures es[View(es, snap)[a]].key.user < es[View(es, snap)[b]].key.user
  {
    ListingIsExact(es, snap, |es|);
    var i, j := View(es, snap)[a], View(es, snap)[b];
    assert i in View(es, snap) && j in View(es, snap);
    assert Before(es[i].key, es[j].key);
  }

  // ---- Searching the run for positions that show

  /** `r` is the first position at or after `from` that shows, or |es|. */
  ghost predicate FirstShown(es: seq<Entry>, snap: SequenceNumber, from: nat, r: nat) {
    && from <= r <= |es| && (r < |es| ==> Shows(es, snap, r))
    && forall i :: from <= i < r ==> !Shows(es, snap, i)
  }

  /** `r` is the last position before `until` that shows, or |es|. */
  ghost predicate LastShown(es: seq<Entry>, snap: SequenceNumber, until: nat, r: nat) {
    && until <= |es|
    && if r < until then Shows(es, snap, r) && forall i :: r < i < until ==> !Shows(es, snap, i)
       else r == |es| && forall i :: 0 <= i < until ==> !Shows(es, snap, i)
  }

  /** The index in the view of the shown position `r`, or the length of the view. */
  ghost predicate AtIndex(es: seq<Entry>, snap: SequenceNumber, r: nat, k: nat) {
    var view := View(es, snap);
    if r == |es| then k == |view| else k < |view| && view[k] == r
  }

  lemma FirstShownIndex(es: seq<Entry>, snap: SequenceNumber, from: nat, r: nat) returns (k: nat)
    requires FirstShown(es, snap, from, r)
    ensures AtIndex(es, snap, r, k)
    ensures forall j :: 0 <= j < k ==> View(es, snap)[j] < from
    ensures forall j :: k <= j < |View(es, snap)| ==> View(es, snap)[j] >= from
  {
    var view := View(es, snap);
    ListingIsExact(es, snap, |es|);
    k := |view|;
    if r < |es| {
      k :| 0 <= k < |view| && view[k] == r;
    }
    forall j | 0 <= j < |view|
      ensures view[j] < from || (r <= view[j] && r < |es|)
    {
      assert Shows(es, snap, view[j]);
    }
  }

  lemma LastShownIndex(es: seq<Entry>, snap: SequenceNumber, until: nat, r: nat) returns (k: nat)
    requires LastShown(es, snap, until, r)
    ensures r < until ==> k < |View(es, snap)| && View(es, snap)[k] == r
    ensures r < until ==> forall j :: k < j < |View(es, snap)| ==> View(es, snap)[j] >= until
    ensures r == |es| ==> forall j :: 0 <= j < |View(es, snap)| ==> View(es, snap)[j] >= until
  {
    var view := View(es, snap);
    ListingIsExact(es, snap, |es|);
    k := 0;
    if r < until {
      k :| 0 <= k < |view| && view[k] == r;
    }
    forall j | 0 <= j < |view|
      ensures (r < until && view[j] <= r) || until <= view[j]
    {
      assert Shows(es, snap, view[j]);
    }
  }

  /** Next moves to the following index of the view. */
  lemma NextIndex(es: seq<Entry>, snap: SequenceNumber, was: nat, k: nat, r: nat)
    requires was < |es| && AtIndex(es, snap, was, k) && FirstShown(es, snap, was + 1, r)
    ensures AtIndex(es, snap, r, k + 1)
  {
    ListingIsExact(es, snap, |es|);
    var j := FirstShownIndex(es, snap, was + 1, r);
    var view := View(es, snap);
    assert j > k;
    assert k + 1 < |view| ==> view[k + 1] > view[k];
  }

  /** Prev moves to the preceding index of the view, and off the view from the first one. */
  lemma PrevIndex(es: seq<Entry>, snap: SequenceNumber, was: nat, k: nat, r: nat)
    requires was < |es| && AtIndex(es, snap, was, k) && LastShown(es, snap, was, r)
    ensures AtIndex(es, snap, r, if k == 0 then |View(es, snap)| else k - 1)
  {
    var j := LastShownIndex(es, snap, was, r);
    if r < was {
      ViewAscends(es, snap, k, j);
      ViewAscends(es, snap, j + 1, k);
    } else if k > 0 {
      ViewAscends(es, snap, k - 1, k);
    }
  }

  lemma ViewAscends(es: seq<Entry>, snap: SequenceNumber, a: nat, b: nat)
    ensures a < b < |View(es, snap)| ==> View(es, snap)[a] < View(es, snap)[b]
  {
    ListingIsExact(es, snap, |es|);
  }

  lemma FirstIndex(es: seq<Entry>, snap: SequenceNumber, r: nat)
    requires FirstShown(es, snap, 0, r)
    ensures AtIndex(es, snap, r, 0)
  {
    var j := FirstShownIndex(es, snap, 0, r);
    var view := View(es, snap);
    assert view != [] ==> Shows(es, snap, view[0]);
    ViewAscends(es, snap, 0, j);
  }

  lemma LastIndex(es: seq<Entry>, snap: SequenceNumber, r: nat)
    requires LastShown(es, snap, |es|, r)
    ensures AtIndex(es, snap, r, if View(es, snap) == [] then 0 else |View(es, snap)| - 1)
  {
    var j := LastShownIndex(es, snap, |es|, r);
    var view := View(es, snap);
    assert view != [] ==> view[0] < |es| && view[|view| - 1] < |es|;
  }

  /** `k` is the first index of the view whose user key is at or after `target`. */
  ghost predicate SeekPoint(es: seq<Entry>, snap: SequenceNumber, target: UserKey, k: nat) {
    var view := View(es, snap);
    && k <= |view| && (forall j :: 0 <= j < k ==> es[view[j]].key.user < target)
    && (forall j :: k <= j < |view| ==> es[view[j]].key.user >= target)
  }

  lemma SeekIsSeekPoint(es: seq<Entry>, snap: SequenceNumber, target: UserKey, from: nat, r: nat) returns (k: nat)
    requires FirstShown(es, snap, from, r)
    requires forall i :: 0 <= i < from && Shows(es, snap, i) ==> es[i].key.user < target
    requires forall i :: from <= i < |es| ==> es[i].key.user >= target
    ensures AtIndex(es, snap, r, k) && SeekPoint(es, snap, target, k)
  {
    k := FirstShownIndex(es, snap, from, r);
    var view := View(es, snap);
    forall j | 0 <= j < |view|
      ensures Shows(es, snap, view[j])
    {
    }
  }

  // ---- The scan forward

  /** State of FindNextUserEntry before it looks at position `p`, when it looks for the first
      shown position at or after `from`. The visible entries passed, and those still to pass
      before `from`, are hidden by `skip` or belong to user keys left behind. */
  ghost predicate SkipState(es: seq<Entry>, snap: SequenceNumber, p: nat, from: nat, skip: Option<UserKey>) {
    && (skip.Some? ==> exists i :: && 0 <= i < |es| && (i < p || i < from)
                                   && es[i].key.user == skip.value && es[i].key.sequence <= snap)
    && (forall i :: 0 <= i < p < |es| && es[i].key.sequence <= snap && es[i].key.user == es[p].key.user
         ==> skip.Some? && es[i].key.user <= skip.value)
    && (forall j :: p <= j < from && j < |es| && es[j].key.sequence <= snap ==> skip == Some(es[j].key.user))
  }

  ghost predicate NoneShown(es: seq<Entry>, snap: SequenceNumber, from: nat, to: nat) {
    forall i :: from <= i < to && i < |es| ==> !Shows(es, snap, i)
  }

  /** The loop returns at this entry. */
  predicate Accepts(e: Entry, snap: SequenceNumber, skip: Option<UserKey>) {
    e.key.sequence <= snap && e.key.kind.TypeValue? && !(skip.Some? && e.key.user <= skip.value)
  }

  /** The key to skip after this entry: a visible deletion replaces it. */
  function NextSkip(e: Entry, snap: SequenceNumber, skip: Option<UserKey>): Option<UserKey> {
    if e.key.sequence <= snap && e.key.kind.TypeDeletion? then Some(e.key.user) else skip
  }

  lemma AcceptedShows(es: seq<Entry>, snap: SequenceNumber, p: nat, from: nat, skip: Option<UserKey>)
    requires Sorted(es) && p < |es| && SkipState(es, snap, p, from, skip)
    ensures Accepts(es[p], snap, skip) ==> from <= p && Shows(es, snap, p)
    ensures from <= p && Shows(es, snap, p) ==> Accepts(es[p], snap, skip)
  {
    if from <= p && skip.Some? && es[p].key.user <= skip.value {
      var i :| 0 <= i < p && es[i].key.user == skip.value && es[i].key.sequence <= snap;
      assert Before(es[i].key, es[p].key);
    }
  }

  lemma SkipStateNext(es: seq<Entry>, snap: SequenceNumber, p: nat, from: nat, skip: Option<UserKey>)
    requires Sorted(es) && p < |es| && SkipState(es, snap, p, from, skip) && !Accepts(es[p], snap, skip)
    ensures SkipState(es, snap, p + 1, from, NextSkip(es[p], snap, skip))
    ensures NoneShown(es, snap, from, p) ==> NoneShown(es, snap, from, p + 1)
  {
    AcceptedShows(es, snap, p, from, skip);
    forall i | 0 <= i < p
      ensures es[i].key.user <= es[p].key.user
    {
      assert Before(es[i].key, es[p].key);
    }
    assert p + 1 < |es| ==> Before(es[p].key, es[p + 1].key);
  }

  // ---- The scan backward

  /** The newest visible entry of its user key among the positions from `lo` on is a value. */
  predicate ShowsFrom(es: seq<Entry>, snap: SequenceNumber, lo: nat, i: nat) {
    && lo <= i < |es| && es[i].key.sequence <= snap && es[i].key.kind.TypeValue?
    && forall j :: lo <= j < i && es[j].key.user == es[i].key.user ==> es[j].key.sequence > snap
  }

  /** What FindPrevUserEntry has saved after it looked at positions lo..hi: the only candidate. */
  ghost predicate Saved(es: seq<Entry>, snap: SequenceNumber, lo: nat, hi: nat, saved: Option<nat>) {
    && lo <= hi <= |es|
    && (saved.Some? ==> saved.value < hi && ShowsFrom(es, snap, lo, saved.value))
    && forall i :: lo <= i < hi && ShowsFrom(es, snap, lo, i) ==> saved == Some(i)
  }

  lemma SavedStep(es: seq<Entry>, snap: SequenceNumber, p: nat, hi: nat, saved: Option<nat>)
    requires Sorted(es) && p < hi && Saved(es, snap, p + 1, hi, saved)
    requires es[p].key.sequence <= snap && saved.Some? ==> es[p].key.user == es[saved.value].key.user
    ensures Saved(es, snap, p, hi, if es[p].key.sequence > snap then saved
                                   else if es[p].key.kind.TypeValue? then Some(p) else None)
  {
    forall i | p < i < hi
      ensures ShowsFrom(es, snap, p, i) <==>
        ShowsFrom(es, snap, p + 1, i) && !(es[p].key.sequence <= snap && es[p].key.user == es[i].key.user)
    {
    }
  }

  lemma SavedIsLastShown(es: seq<Entry>, snap: SequenceNumber, lo: nat, hi: nat, saved: Option<nat>)
    requires Sorted(es) && Saved(es, snap, lo, hi, saved)
    requires saved.Some? && lo > 0 ==> es[lo - 1].key.user < es[saved.value].key.user
    requires saved.None? ==> lo == 0
    ensures LastShown(es, snap, hi, if saved.Some? then saved.value else |es|)
  {
    forall i | lo <= i < hi
      ensures Shows(es, snap, i) ==> ShowsFrom(es, snap, lo, i)
    {
    }
    if saved.Some? {
      forall j | 0 <= j < lo
        ensures es[j].key.user < es[saved.value].key.user
      {
        assert j < lo - 1 ==> Before(es[j].key, es[lo - 1].key);
      }
      assert Shows(es, snap, saved.value);
    }
  }

  datatype Direction = Forward | Reverse

  class DBIter {
    const iter: Cursor
    const sequence: SequenceNumber
    var direction: Direction
    var valid: bool
    var savedKey: Option<UserKey>   // the current key when direction is Reverse
    var savedValue: Option<Value>   // the current value when direction is Reverse
    ghost var at: nat               // the position shown, or the length of the run

    /** Where the internal iterator stands when moving backward: before the shown entry, with
        nothing visible in between. */
    ghost predicate BehindShown()
      reads this, iter
      requires at < |iter.es|
    {
      var lo := if iter.Valid() then iter.pos + 1 else 0;
      && lo <= at
      && (forall j :: lo <= j < at ==> iter.es[j].key.sequence > sequence)
      && (iter.Valid() ==> iter.es[iter.pos].key.user < iter.es[at].key.user)
    }

    ghost predicate Inv()
      reads this, iter
    {
      && iter.Inv() && at <= |iter.es| && (valid <==> at < |iter.es|)
      && (valid ==>
            && Shows(iter.es, sequence, at)
            && if direction.Forward? then iter.pos == at
               else BehindShown() && savedKey == Some(iter.es[at].key.user) && savedValue == Some(iter.es[at].value))
    }

    /** The iterator stands at index `k` of the snapshot view, or past it if `k` is its length. */
    ghost predicate IsAt(k: nat)
      reads this
    {
      AtIndex(iter.es, sequence, at, k)
    }

    constructor (iter: Cursor, sequence: SequenceNumber)
      requires iter.Inv()
      ensures Inv() && !valid && this.iter == iter && this.sequence == sequence
    {
      this.iter := iter;
      this.sequence := sequence;
      direction, valid, savedKey, savedValue := Forward, false, None, None;
      at := |iter.es|;
    }

    function Key(): UserKey
      requires Inv() && valid
      reads this, iter
    {
      if direction.Forward? then iter.Key().user else savedKey.value
    }

    function Value(): Value
      requires Inv() && valid
      reads this, iter
    {
      if direction.Forward? then iter.es[iter.pos].value else savedValue.value
    }

    lemma KeyAndValue()
      requires Inv() && valid
      ensures Key() == iter.es[at].key.user && Value() == iter.es[at].value
    {
    }

    method Next()
      requires Inv() && valid
      modifies this, iter
      ensures Inv() && forall k: nat :: old(IsAt(k)) ==> IsAt(k + 1)
    {
      ghost var was, from := at, at + 1;
      if direction.Reverse? {
        direction := Forward;
        if !iter.Valid() {
          iter.SeekToFirst();
        } else {
          iter.Next();
        }
      } else {
        savedKey := Some(iter.Key().user);
        iter.Next();
      }
      if !iter.Valid() {
        valid, savedKey, at := false, None, |iter.es|;
      } else {
        SkipPastShown(iter.es, sequence, iter.pos, from);
        FindNextUserEntry(savedKey, from);
      }
      forall k: nat | AtIndex(iter.es, sequence, was, k)
        ensures IsAt(k + 1)
      {
        NextIndex(iter.es, sequence, was, k, at);
      }
    }

    method FindNextUserEntry(skip: Option<UserKey>, ghost from: nat)
      requires iter.Inv() && iter.Valid() && direction.Forward? && iter.pos <= from <= |iter.es|
      requires SkipState(iter.es, sequence, iter.pos, from, skip)
      modifies this, iter
      ensures Inv() && direction.Forward? && FirstShown(iter.es, sequence, from, at)
    {
      hide Shows, SkipState, Sorted;
      var toSkip := skip;
      while iter.Valid()
        invariant iter.Inv() && direction.Forward?
        invariant SkipState(iter.es, sequence, iter.pos, from, toSkip) && NoneShown(iter.es, sequence, from, iter.pos)
        decreases |iter.es| - iter.pos
      {
        var ikey := iter.Key();
        AcceptedShows(iter.es, sequence, iter.pos, from, toSkip);
        ghost var before := toSkip;
        if ikey.sequence <= sequence {
          match ikey.kind
          case TypeDeletion =>
            toSkip := Some(ikey.user);
          case TypeValue =>
            if toSkip.Some? && ikey.user <= toSkip.value {
              // hidden
            } else {
              valid, savedKey, at := true, None, iter.pos;
              return;
            }
        }
        SkipStateNext(iter.es, sequence, iter.pos, from, before);
        iter.Next();
      }
      valid, savedKey, at := false, None, |iter.es|;
    }

    method Prev()
      requires Inv() && valid
      modifies this, iter
      ensures Inv() && forall k: nat :: old(IsAt(k)) ==> IsAt(if k == 0 then |View(iter.es, sequence)| else k - 1)
    {
      ghost var was := at;
      BackUp();
      forall k: nat | AtIndex(iter.es, sequence, was, k)
        ensures IsAt(if k == 0 then |View(iter.es, sequence)| else k - 1)
      {
        PrevIndex(iter.es, sequence, was, k, at);
      }
    }

    method BackUp()
      requires Inv() && valid
      modifies this, iter
      ensures Inv() && LastShown(iter.es, sequence, old(at), at)
    {
      if direction.Forward? {
        savedKey := Some(iter.Key().user);
        ghost var shown := at;
        while true
          invariant iter.Inv() && iter.Valid() && iter.pos <= shown && savedKey == Some(iter.es[shown].key.user)
          invariant forall j :: iter.pos <= j <= shown ==> iter.es[j].key.user == iter.es[shown].key.user
          decreases iter.pos
        {
          iter.Prev();
          if !iter.Valid() {
            NothingBeforeShown(iter.es, sequence, 0, shown);
            valid, savedKey, savedValue, at := false, None, None, |iter.es|;
            return;
          }
          if iter.Key().user < savedKey.value {
            break;
          }
          assert Before(iter.es[iter.pos].key, iter.es[shown].key);
        }
        direction := Reverse;
        NothingBeforeShown(iter.es, sequence, iter.pos + 1, shown);
      }
      FindPrevUserEntry(old(at));
    }

    /** `until` is where the search starts; nothing between the cursor and it shows. */
    method FindPrevUserEntry(ghost until: nat)
      requires iter.Inv() && direction.Reverse? && until <= |iter.es|
      requires (if iter.Valid() then iter.pos + 1 else 0) <= until
      requires forall i :: (if iter.Valid() then iter.pos + 1 else 0) <= i < until ==> !Shows(iter.es, sequence, i)
      modifies this, iter
      ensures Inv() && LastShown(iter.es, sequence, until, at)
    {
      ghost var hi := if iter.Valid() then iter.pos + 1 else 0;
      ghost var saved: Option<nat> := None;
      ghost var lo := hi;
      var valueType := TypeDeletion;
      while iter.Valid()
        invariant iter.Inv() && direction.Reverse? && lo == (if iter.Valid() then iter.pos + 1 else 0)
        invariant Saved(iter.es, sequence, lo, hi, saved)
        invariant saved.Some? <==> valueType.TypeValue?
        invariant saved.Some? ==> savedKey == Some(iter.es[saved.value].key.user)
        invariant saved.Some? ==> savedValue == Some(iter.es[saved.value].value)
        invariant saved.Some? ==> forall j :: lo <= j < saved.value ==> iter.es[j].key.sequence > sequence
        decreases lo
      {
        var ikey := iter.Key();
        ghost var p := iter.pos;
        assert saved.Some? ==> Before(iter.es[p].key, iter.es[saved.value].key);
        if ikey.sequence <= sequence {
          if valueType.TypeValue? && ikey.user < savedKey.value {
            break;
          }
          SavedStep(iter.es, sequence, p, hi, saved);
          valueType := ikey.kind;
          if valueType.TypeDeletion? {
            savedKey, savedValue, saved := None, None, None;
          } else {
            savedKey, savedValue, saved := Some(ikey.user), Some(iter.es[iter.pos].value), Some(p);
          }
        } else {
          SavedStep(iter.es, sequence, p, hi, saved);
        }
        lo := p;
        iter.Prev();
      }
      SavedIsLastShown(iter.es, sequence, lo, hi, saved);
      at := if saved.Some? then saved.value else |iter.es|;
      if valueType.TypeDeletion? {
        valid, savedKey, savedValue, direction := false, None, None, Forward;
      } else {
        valid := true;
      }
    }

    method Seek(target: UserKey)
      requires Inv()
      modifies this, iter
      ensures Inv() && exists k :: IsAt(k) && SeekPoint(iter.es, sequence, target, k)
    {
      direction, savedValue := Forward, None;
      iter.Seek(LookupKey(target, sequence));
      ghost var from := iter.pos;
      SeekSplits(iter.es, sequence, target);
      if iter.Valid() {
        FindNextUserEntry(None, from);
      } else {
        valid, at := false, |iter.es|;
      }
      ghost var k := SeekIsSeekPoint(iter.es, sequence, target, from, at);
      assert IsAt(k);
    }

    method SeekToFirst()
      requires Inv()
      modifies this, iter
      ensures Inv() && IsAt(0)
    {
      direction, savedValue := Forward, None;
      iter.SeekToFirst();
      if iter.Valid() {
        FindNextUserEntry(None, 0);
      } else {
        valid, at := false, |iter.es|;
      }
      FirstIndex(iter.es, sequence, at);
    }

    method SeekToLast()
      requires Inv()
      modifies this, iter
      ensures Inv() && IsAt(if View(iter.es, sequence) == [] then 0 else |View(iter.es, sequence)| - 1)
    {
      direction, savedValue := Reverse, None;
      iter.SeekToLast();
      FindPrevUserEntry(|iter.es|);
      LastIndex(iter.es, sequence, at);
    }
  }

  /** Moving forward from a shown position: what was left behind is hidden by its user key. */
  lemma SkipPastShown(es: seq<Entry>, snap: SequenceNumber, p: nat, from: nat)
    requires Sorted(es) && p <= from && 0 < from <= |es| && Shows(es, snap, from - 1)
    requires forall j :: p <= j < from - 1 ==> es[j].key.sequence > snap
    ensures SkipState(es, snap, p, from, Some(es[from - 1].key.user))
  {
    forall i | 0 <= i < from
      ensures es[i].key.user <= es[from - 1].key.user
    {
      assert i < from - 1 ==> Before(es[i].key, es[from - 1].key);
    }
  }

  /** Newer entries of a shown user key are invisible. */
  lemma NothingBeforeShown(es: seq<Entry>, snap: SequenceNumber, lo: nat, shown: nat)
    requires Shows(es, snap, shown) && lo <= shown
    requires forall j :: lo <= j <= shown ==> es[j].key.user == es[shown].key.user
    ensures forall j :: lo <= j < shown ==> !Shows(es, snap, j)
  {
  }

  lemma SeekSplits(es: seq<Entry>, snap: SequenceNumber, target: UserKey)
    requires Sorted(es)
    ensures var p := SeekIndex(es, LookupKey(target, snap));
      && SkipState(es, snap, p, p, None)
      && (forall i :: 0 <= i < p && Shows(es, snap, i) ==> es[i].key.user < target)
      && (forall i :: p <= i < |es| ==> es[i].key.user >= target)
  {
    var p := SeekIndex(es, LookupKey(target, snap));
    forall i | p <= i < |es|
      ensures es[i].key.user >= target
    {
      assert p < i ==> Before(es[p].key, es[i].key);
    }
  }
}
