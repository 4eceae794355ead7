/** MergingIterator: one cursor over the sorted union of its children (table/merger.cc). */
module Merger {
  import opened DbFormat
  import opened Versions
  import opened Lookup
  import opened Cursors

  // ---- Positions of a child relative to a key

  /** The child stands at its first entry at or after `k`. */
  ghost predicate AtOrAfter(es: seq<Entry>, pos: nat, k: InternalKey) {
    && pos <= |es| && (forall p :: 0 <= p < pos ==> Less(es[p].key, k))
    && (pos < |es| ==> !Less(es[pos].key, k))
  }

  /** The child stands at its first entry after `k`. */
  ghost predicate StrictlyAfter(es: seq<Entry>, pos: nat, k: InternalKey) {
    && pos <= |es| && (forall p :: 0 <= p < pos ==> !Less(k, es[p].key))
    && (pos < |es| ==> Less(k, es[pos].key))
  }

  /** The child stands at its last entry before `k`, or is not valid if there is none. */
  ghost predicate StrictlyBefore(es: seq<Entry>, pos: nat, k: InternalKey) {
    && pos <= |es| && (pos < |es| ==> Less(es[pos].key, k))
    && forall p :: (if pos < |es| then pos < p else 0 <= p) && 0 <= p < |es| ==> !Less(es[p].key, k)
  }

  lemma SortedByLess(es: seq<Entry>)
    requires Sorted(es)
    ensures forall i, j :: 0 <= i < j < |es| ==> Less(es[i].key, es[j].key)
  {
  }

  lemma LessAt(es: seq<Entry>, i: nat, j: nat)
    requires Sorted(es)
    ensures i < j < |es| ==> Less(es[i].key, es[j].key)
  {
  }

  // ---- Neighbours in the union

  /** `x` is the first entry of `s` after `k`. */
  ghost predicate FirstAfter(s: set<Entry>, k: InternalKey, x: Entry) {
    x in s && Less(k, x.key) && forall y :: y in s && Less(k, y.key) ==> !Less(y.key, x.key)
  }

  ghost predicate FirstAtOrAfter(s: set<Entry>, k: InternalKey, x: Entry) {
    x in s && !Less(x.key, k) && forall y :: y in s && !Less(y.key, k) ==> !Less(y.key, x.key)
  }

  ghost predicate LastBefore(s: set<Entry>, k: InternalKey, x: Entry) {
    x in s && Less(x.key, k) && forall y :: y in s && Less(y.key, k) ==> !Less(x.key, y.key)
  }

  lemma SuccessorIndex(all: seq<Entry>, at: nat, x: Entry)
    requires Sorted(all) && at < |all| && FirstAfter(Elements(all), all[at].key, x)
    ensures at + 1 < |all| && all[at + 1] == x
  {
    SortedByLess(all);
    var i :| 0 <= i < |all| && all[i] == x;
    assert i > at;
    assert all[at + 1] in Elements(all);
  }

  lemma PredecessorIndex(all: seq<Entry>, at: nat, x: Entry)
    requires Sorted(all) && at < |all| && LastBefore(Elements(all), all[at].key, x)
    ensures at > 0 && all[at - 1] == x
  {
    SortedByLess(all);
    var i :| 0 <= i < |all| && all[i] == x;
    assert i < at;
    assert all[at - 1] in Elements(all);
  }

  lemma SeekPointIndex(all: seq<Entry>, k: InternalKey, x: Entry)
    requires Sorted(all) && FirstAtOrAfter(Elements(all), k, x)
    ensures SeekIndex(all, k) < |all| && all[SeekIndex(all, k)] == x
  {
    SortedByLess(all);
    var i :| 0 <= i < |all| && all[i] == x;
    var j := SeekIndex(all, k);
    assert j < |all| && all[j] in Elements(all);
  }

  // ---- The children as values: their runs, and their positions

  ghost predicate InRun(runs: seq<seq<Entry>>, i: nat, e: Entry) {
    i < |runs| && e in runs[i]
  }

  ghost predicate InSomeRun(runs: seq<seq<Entry>>, e: Entry) {
    exists i :: InRun(runs, i, e)
  }

  /** Every entry of `all` is in exactly one run. */
  ghost predicate Partition(runs: seq<seq<Entry>>, all: seq<Entry>) {
    && Sorted(all)
    && (forall i :: 0 <= i < |runs| ==> Sorted(runs[i]))
    && (forall i, e :: InRun(runs, i, e) ==> e in all)
    && (forall e :: e in all ==> InSomeRun(runs, e))
    && (forall i, j, e :: InRun(runs, i, e) && InRun(runs, j, e) ==> i == j)
  }

  lemma WhereIn(runs: seq<seq<Entry>>, all: seq<Entry>, e: Entry) returns (i: nat, p: nat)
    requires Partition(runs, all) && e in all
    ensures i < |runs| && p < |runs[i]| && runs[i][p] == e
    ensures forall q, r :: 0 <= q < r < |runs[i]| ==> Less(runs[i][q].key, runs[i][r].key)
  {
    assert InSomeRun(runs, e);
    i :| InRun(runs, i, e);
    p :| 0 <= p < |runs[i]| && runs[i][p] == e;
    SortedByLess(runs[i]);
  }

  lemma StandingInAll(runs: seq<seq<Entry>>, poss: seq<nat>, all: seq<Entry>, i: nat, x: Entry)
    requires Partition(runs, all) && Stands(runs, poss, i, x)
    ensures x in all
  {
    assert InRun(runs, i, x);
  }

  /** The entry at which run `i` stands. */
  ghost predicate Stands(runs: seq<seq<Entry>>, poss: seq<nat>, i: nat, x: Entry) {
    i < |runs| && i < |poss| && poss[i] < |runs[i]| && runs[i][poss[i]] == x
  }

  /** `current` is the child whose entry is the smallest, or the largest. */
  ghost predicate IsSmallest(runs: seq<seq<Entry>>, poss: seq<nat>, current: Option<nat>) {
    if current.None? then forall i, x :: !Stands(runs, poss, i, x)
    else exists x :: Stands(runs, poss, current.value, x)
                  && forall i, y :: Stands(runs, poss, i, y) ==> !Less(y.key, x.key)
  }

  ghost predicate IsLargest(runs: seq<seq<Entry>>, poss: seq<nat>, current: Option<nat>) {
    if current.None? then forall i, x :: !Stands(runs, poss, i, x)
    else exists x :: Stands(runs, poss, current.value, x)
                  && forall i, y :: Stands(runs, poss, i, y) ==> !Less(x.key, y.key)
  }

  /** The position in `all` at which `current` puts the merged cursor. */
  ghost predicate MergedAt(runs: seq<seq<Entry>>, poss: seq<nat>, all: seq<Entry>, current: Option<nat>, at: nat) {
    if current.None? then at == |all| else at < |all| && Stands(runs, poss, current.value, all[at])
  }

  datatype Direction = Forward | Reverse

  /** Where the children of a merged cursor stand: the current child at the key, the others
      beyond it in the direction of travel. */
  ghost predicate Positioned(runs: seq<seq<Entry>>, poss: seq<nat>, direction: Direction, current: nat, k: InternalKey) {
    && |poss| == |runs|
    && forall j :: 0 <= j < |runs| && j != current ==>
         if direction.Forward? then StrictlyAfter(runs[j], poss[j], k) else StrictlyBefore(runs[j], poss[j], k)
  }

  /** Position `q` has been passed by a cursor that moves forward and stands at `pos`. */
  predicate PassedAt(es: seq<Entry>, pos: nat, q: nat) {
    q < |es| && q < pos
  }

  /** No other child holds the current key, so where the current child is the smallest, the
      others are strictly after it. */
  lemma OthersAfter(runs: seq<seq<Entry>>, poss: seq<nat>, all: seq<Entry>, current: nat, x: Entry)
    requires Partition(runs, all) && |poss| == |runs| && Stands(runs, poss, current, x)
    requires forall i, y :: Stands(runs, poss, i, y) ==> !Less(y.key, x.key)
    requires forall i, q: nat :: 0 <= i < |runs| && PassedAt(runs[i], poss[i], q) ==> !Less(x.key, runs[i][q].key)
    requires forall i :: 0 <= i < |runs| ==> poss[i] <= |runs[i]|
    ensures Positioned(runs, poss, Forward, current, x.key)
  {
    forall j | 0 <= j < |runs| && j != current
      ensures StrictlyAfter(runs[j], poss[j], x.key)
    {
      if poss[j] < |runs[j]| {
        var y := runs[j][poss[j]];
        assert Stands(runs, poss, j, y);
        StandingInAll(runs, poss, all, j, y);
        StandingInAll(runs, poss, all, current, x);
        assert InRun(runs, current, x) && InRun(runs, j, y);
        KeysDiffer(all, x, y);
      }
      forall p | 0 <= p < poss[j]
        ensures !Less(x.key, runs[j][p].key)
      {
        assert PassedAt(runs[j], poss[j], p);
      }
    }
  }

  lemma KeysDiffer(all: seq<Entry>, x: Entry, y: Entry)
    requires Sorted(all) && x in all && y in all && x != y
    ensures Less(x.key, y.key) || Less(y.key, x.key)
  {
    SortedByLess(all);
    var i :| 0 <= i < |all| && all[i] == x;
    var j :| 0 <= j < |all| && all[j] == y;
    assert i < j || j < i;
  }

  lemma OthersBefore(runs: seq<seq<Entry>>, poss: seq<nat>, all: seq<Entry>, current: nat, x: Entry)
    requires Partition(runs, all) && |poss| == |runs| && Stands(runs, poss, current, x)
    requires forall i, y :: Stands(runs, poss, i, y) ==> !Less(x.key, y.key)
    requires forall i, q: nat :: 0 <= i < |runs| && BehindAt(runs[i], poss[i], q) ==> !Less(runs[i][q].key, x.key)
    requires forall i :: 0 <= i < |runs| ==> poss[i] <= |runs[i]|
    ensures Positioned(runs, poss, Reverse, current, x.key)
  {
    forall j | 0 <= j < |runs| && j != current
      ensures StrictlyBefore(runs[j], poss[j], x.key)
    {
      if poss[j] < |runs[j]| {
        var y := runs[j][poss[j]];
        assert Stands(runs, poss, j, y);
        StandingInAll(runs, poss, all, j, y);
        StandingInAll(runs, poss, all, current, x);
        assert InRun(runs, current, x) && InRun(runs, j, y);
        KeysDiffer(all, x, y);
      }
      forall p | (if poss[j] < |runs[j]| then poss[j] < p else 0 <= p) && 0 <= p < |runs[j]|
        ensures !Less(runs[j][p].key, x.key)
      {
        assert BehindAt(runs[j], poss[j], p);
      }
    }
  }

  /** Position `q` has been passed by a cursor that moves backward and stands at `pos`. */
  predicate BehindAt(es: seq<Entry>, pos: nat, q: nat) {
    q < |es| && (pos < |es| ==> pos < q)
  }

  lemma NextSmallest(runs: seq<seq<Entry>>, poss: seq<nat>, all: seq<Entry>, current: Option<nat>, was: nat)
    requires Partition(runs, all) && |poss| == |runs| && IsSmallest(runs, poss, current) && was < |all|
    requires forall i :: 0 <= i < |runs| ==> StrictlyAfter(runs[i], poss[i], all[was].key)
    ensures MergedAt(runs, poss, all, current, was + 1)
    ensures current.Some? ==> Positioned(runs, poss, Forward, current.value, all[was + 1].key)
  {
    var k := all[was].key;
    forall y | y in all && Less(k, y.key)
      ensures exists i, x :: Stands(runs, poss, i, x) && !Less(y.key, x.key)
    {
      var i, p := WhereIn(runs, all, y);
      assert Stands(runs, poss, i, runs[i][poss[i]]);
    }
    if current.None? {
      SortedByLess(all);
      IndexedIsMember(all, was + 1);
    } else {
      var x :| Stands(runs, poss, current.value, x) && forall i, y :: Stands(runs, poss, i, y) ==> !Less(y.key, x.key);
      StandingInAll(runs, poss, all, current.value, x);
      SuccessorIndex(all, was, x);
      OthersAfter(runs, poss, all, current.value, x);
    }
  }

  lemma PreviousLargest(runs: seq<seq<Entry>>, poss: seq<nat>, all: seq<Entry>, current: Option<nat>, was: nat)
    requires Partition(runs, all) && |poss| == |runs| && IsLargest(runs, poss, current) && was < |all|
    requires forall i :: 0 <= i < |runs| ==> StrictlyBefore(runs[i], poss[i], all[was].key)
    ensures MergedAt(runs, poss, all, current, if was == 0 then |all| else was - 1)
    ensures current.Some? ==> was > 0 && Positioned(runs, poss, Reverse, current.value, all[was - 1].key)
  {
    var k := all[was].key;
    forall y | y in all && Less(y.key, k)
      ensures exists i, x :: Stands(runs, poss, i, x) && !Less(x.key, y.key)
    {
      var i, p := WhereIn(runs, all, y);
      assert Stands(runs, poss, i, runs[i][poss[i]]);
    }
    if current.None? {
      SortedByLess(all);
      IndexedIsMember(all, was - 1);
    } else {
      var x :| Stands(runs, poss, current.value, x) && forall i, y :: Stands(runs, poss, i, y) ==> !Less(x.key, y.key);
      StandingInAll(runs, poss, all, current.value, x);
      PredecessorIndex(all, was, x);
      OthersBefore(runs, poss, all, current.value, x);
    }
  }

  lemma SoughtSmallest(runs: seq<seq<Entry>>, poss: seq<nat>, all: seq<Entry>, current: Option<nat>, k: InternalKey)
    requires Partition(runs, all) && |poss| == |runs| && IsSmallest(runs, poss, current)
    requires forall i :: 0 <= i < |runs| ==> AtOrAfter(runs[i], poss[i], k)
    ensures MergedAt(runs, poss, all, current, SeekIndex(all, k))
    ensures current.Some? ==> Positioned(runs, poss, Forward, current.value, all[SeekIndex(all, k)].key)
  {
    forall y | y in all && !Less(y.key, k)
      ensures exists i, x :: Stands(runs, poss, i, x) && !Less(y.key, x.key)
    {
      var i, p := WhereIn(runs, all, y);
      assert Stands(runs, poss, i, runs[i][poss[i]]);
    }
    var j := SeekIndex(all, k);
    if current.None? {
      IndexedIsMember(all, j);
    } else {
      var x :| Stands(runs, poss, current.value, x) && forall i, y :: Stands(runs, poss, i, y) ==> !Less(y.key, x.key);
      StandingInAll(runs, poss, all, current.value, x);
      SeekPointIndex(all, k, x);
      OthersAfter(runs, poss, all, current.value, x);
    }
  }

  lemma FirstSmallest(runs: seq<seq<Entry>>, poss: seq<nat>, all: seq<Entry>, current: Option<nat>)
    requires Partition(runs, all) && |poss| == |runs| && IsSmallest(runs, poss, current)
    requires forall i :: 0 <= i < |runs| ==> poss[i] == 0
    ensures MergedAt(runs, poss, all, current, 0)
    ensures current.Some? ==> Positioned(runs, poss, Forward, current.value, all[0].key)
  {
    SortedByLess(all);
    if all != [] {
      assert all[0] in all;
      var i, p := WhereIn(runs, all, all[0]);
      assert InRun(runs, i, runs[i][0]);
      LessAt(runs[i], 0, p);
      assert Stands(runs, poss, i, all[0]);
      var x :| Stands(runs, poss, current.value, x) && forall i, y :: Stands(runs, poss, i, y) ==> !Less(y.key, x.key);
      StandingInAll(runs, poss, all, current.value, x);
      OthersAfter(runs, poss, all, current.value, x);
    } else if current.Some? {
      var x :| Stands(runs, poss, current.value, x);
      StandingInAll(runs, poss, all, current.value, x);
    }
  }

  lemma LastLargest(runs: seq<seq<Entry>>, poss: seq<nat>, all: seq<Entry>, current: Option<nat>)
    requires Partition(runs, all) && |poss| == |runs| && IsLargest(runs, poss, current)
    requires forall i :: 0 <= i < |runs| ==> poss[i] == if runs[i] == [] then 0 else |runs[i]| - 1
    ensures MergedAt(runs, poss, all, current, if all == [] then 0 else |all| - 1)
    ensures current.Some? ==> all != [] && Positioned(runs, poss, Reverse, current.value, all[|all| - 1].key)
  {
    SortedByLess(all);
    if all != [] {
      var last := all[|all| - 1];
      assert last in all;
      var i, p := WhereIn(runs, all, last);
      var n := |runs[i]| - 1;
      assert InRun(runs, i, runs[i][n]);
      LessAt(runs[i], p, n);
      assert Stands(runs, poss, i, last);
      var x :| Stands(runs, poss, current.value, x) && forall i, y :: Stands(runs, poss, i, y) ==> !Less(x.key, y.key);
      StandingInAll(runs, poss, all, current.value, x);
      OthersBefore(runs, poss, all, current.value, x);
    } else if current.Some? {
      var x :| Stands(runs, poss, current.value, x);
      StandingInAll(runs, poss, all, current.value, x);
    }
  }

  class MergingIterator {
    const children: seq<Cursor>
    const all: seq<Entry>          // the sorted union of the children's runs
    var current: Option<nat>
    var direction: Direction
    ghost var at: nat              // the position in `all`, or its length

    ghost function Runs(): (r: seq<seq<Entry>>)
      ensures |r| == |children| && forall i :: 0 <= i < |r| ==> r[i] == children[i].es
    {
      seq(|children|, i requires 0 <= i < |children| => children[i].es)
    }

    ghost function Positions(): (r: seq<nat>)
      reads children
      ensures |r| == |children| && forall i :: 0 <= i < |r| ==> r[i] == children[i].pos
    {
      seq(|children|, i requires 0 <= i < |children| reads children => children[i].pos)
    }

    /** The children are distinct objects, and their runs partition `all`. */
    ghost predicate Static() {
      && (forall i, j :: 0 <= i < j < |children| ==> children[i] != children[j])
      && Partition(Runs(), all)
    }

    ghost predicate CursorsOK()
      reads children
    {
      forall i :: 0 <= i < |children| ==> children[i].Inv()
    }

    ghost predicate ChildrenOK()
      reads children
    {
      Static() && CursorsOK()
    }

    ghost predicate Inv()
      reads this, children
    {
      && ChildrenOK() && at <= |all| && MergedAt(Runs(), Positions(), all, current, at)
      && (current.Some? ==> Positioned(Runs(), Positions(), direction, current.value, all[at].key))
    }

    predicate Valid()
      reads this
    {
      current.Some?
    }

    constructor (children: seq<Cursor>, all: seq<Entry>)
      requires forall i, j :: 0 <= i < j < |children| ==> children[i] != children[j]
      requires forall i :: 0 <= i < |children| ==> children[i].Inv()
      requires Partition(seq(|children|, i requires 0 <= i < |children| => children[i].es), all)
      ensures Inv() && !Valid() && this.children == children && this.all == all
    {
      this.children, this.all := children, all;
      current, direction, at := None, Forward, |all|;
      new;
      assert Runs() == seq(|children|, i requires 0 <= i < |children| => children[i].es);
    }

    function Key(): InternalKey
      requires Inv() && Valid()
      reads this, children
    {
      children[current.value].Key()
    }

    method FindSmallest()
      requires ChildrenOK()
      modifies `current
      ensures IsSmallest(Runs(), Positions(), current)
    {
      var smallest: Option<nat> := None;
      for i := 0 to |children|
        invariant smallest.None? ==> forall j :: 0 <= j < i ==> !children[j].Valid()
        invariant smallest.Some? ==> smallest.value < i && children[smallest.value].Valid()
        invariant smallest.Some? ==> forall j :: 0 <= j < i && children[j].Valid() ==>
                    !Less(children[j].Key(), children[smallest.value].Key())
      {
        if children[i].Valid() {
          if smallest.None? || Less(children[i].Key(), children[smallest.value].Key()) {
            smallest := Some(i);
          }
        }
      }
      current := smallest;
      if current.Some? {
        var c := children[current.value];
        assert Stands(Runs(), Positions(), current.value, c.es[c.pos]);
      }
    }

    method FindLargest()
      requires ChildrenOK()
      modifies `current
      ensures IsLargest(Runs(), Positions(), current)
    {
      var largest: Option<nat> := None;
      var i := |children|;
      while i > 0
        invariant 0 <= i <= |children|
        invariant largest.None? ==> forall j :: i <= j < |children| ==> !children[j].Valid()
        invariant largest.Some? ==> i <= largest.value < |children| && children[largest.value].Valid()
        invariant largest.Some? ==> forall j :: i <= j < |children| && children[j].Valid() ==>
                    !Less(children[largest.value].Key(), children[j].Key())
      {
        i := i - 1;
        if children[i].Valid() {
          if largest.None? || Less(children[largest.value].Key(), children[i].Key()) {
            largest := Some(i);
          }
        }
      }
      current := largest;
      if current.Some? {
        var c := children[current.value];
        assert Stands(Runs(), Positions(), current.value, c.es[c.pos]);
      }
    }

    method SeekToFirst()
      requires ChildrenOK()
      modifies this, children
      ensures Inv() && at == 0
    {
      for i := 0 to |children|
        invariant CursorsOK() && forall j :: 0 <= j < i ==> children[j].pos == 0
      {
        children[i].SeekToFirst();
      }
      FindSmallest();
      direction := Forward;
      at := 0;
      FirstSmallest(Runs(), Positions(), all, current);
    }

    method SeekToLast()
      requires ChildrenOK()
      modifies this, children
      ensures Inv() && at == if all == [] then 0 else |all| - 1
    {
      for i := 0 to |children|
        invariant CursorsOK()
        invariant forall j :: 0 <= j < i ==> children[j].pos == if children[j].es == [] then 0 else |children[j].es| - 1
      {
        children[i].SeekToLast();
      }
      FindLargest();
      direction := Reverse;
      at := if all == [] then 0 else |all| - 1;
      LastLargest(Runs(), Positions(), all, current);
    }

    method Seek(target: InternalKey)
      requires ChildrenOK()
      modifies this, children
      ensures Inv() && at == SeekIndex(all, target)
    {
      for i := 0 to |children|
        invariant CursorsOK() && forall j :: 0 <= j < i ==> children[j].pos == SeekIndex(children[j].es, target)
      {
        children[i].Seek(target);
      }
      FindSmallest();
      direction := Forward;
      at := SeekIndex(all, target);
      SoughtSmallest(Runs(), Positions(), all, current, target);
    }

    /** Ensure that all children but the current one are positioned after the key. */
    method MoveOthersAfter(cur: nat)
      requires Static() && CursorsOK() && cur < |children| && children[cur].Valid()
      modifies children
      ensures CursorsOK() && children[cur].pos == old(children[cur].pos)
      ensures forall j :: 0 <= j < |children| && j != cur ==>
                StrictlyAfter(children[j].es, children[j].pos, children[cur].Key())
    {
      var k := children[cur].Key();
      for i := 0 to |children|
        invariant CursorsOK() && children[cur].pos == old(children[cur].pos)
        invariant forall j :: 0 <= j < i && j != cur ==> StrictlyAfter(children[j].es, children[j].pos, k)
      {
        if i != cur {
          SeekPast(children[i], k);
        }
      }
    }

    method MoveOthersBefore(cur: nat)
      requires Static() && CursorsOK() && cur < |children| && children[cur].Valid()
      modifies children
      ensures CursorsOK() && children[cur].pos == old(children[cur].pos)
      ensures forall j :: 0 <= j < |children| && j != cur ==>
                StrictlyBefore(children[j].es, children[j].pos, children[cur].Key())
    {
      var k := children[cur].Key();
      for i := 0 to |children|
        invariant CursorsOK() && children[cur].pos == old(children[cur].pos)
        invariant forall j :: 0 <= j < i && j != cur ==> StrictlyBefore(children[j].es, children[j].pos, k)
      {
        if i != cur {
          SeekBefore(children[i], k);
        }
      }
    }

    /** Before a step forward: every other child is after the key. */
    method TurnForward()
      requires Inv() && Valid()
      modifies this, children
      ensures ChildrenOK() && current == old(current) && at == old(at) < |all| && direction.Forward?
      ensures Stands(Runs(), Positions(), current.value, all[at])
      ensures Positioned(Runs(), Positions(), Forward, current.value, all[at].key)
    {
      if direction != Forward {
        MoveOthersAfter(current.value);
        direction := Forward;
      }
    }

    method TurnBackward()
      requires Inv() && Valid()
      modifies this, children
      ensures ChildrenOK() && current == old(current) && at == old(at) < |all| && direction.Reverse?
      ensures Stands(Runs(), Positions(), current.value, all[at])
      ensures Positioned(Runs(), Positions(), Reverse, current.value, all[at].key)
    {
      if direction != Reverse {
        MoveOthersBefore(current.value);
        direction := Reverse;
      }
    }

    method AdvanceCurrent(cur: nat, ghost k: InternalKey)
      requires ChildrenOK() && cur < |children| && children[cur].Valid() && children[cur].Key() == k
      requires Positioned(Runs(), Positions(), Forward, cur, k)
      modifies children[cur]
      ensures CursorsOK()
      ensures forall i :: 0 <= i < |children| ==> StrictlyAfter(Runs()[i], Positions()[i], k)
    {
      children[cur].Next();
      AdvancedPast(children[cur].es, children[cur].pos);
    }

    method StepCurrentBack(cur: nat, ghost k: InternalKey)
      requires ChildrenOK() && cur < |children| && children[cur].Valid() && children[cur].Key() == k
      requires Positioned(Runs(), Positions(), Reverse, cur, k)
      modifies children[cur]
      ensures CursorsOK()
      ensures forall i :: 0 <= i < |children| ==> StrictlyBefore(Runs()[i], Positions()[i], k)
    {
      ghost var pos := children[cur].pos;
      children[cur].Prev();
      SteppedBefore(children[cur].es, pos);
    }

    lemma SmallestRestores(was: nat)
      requires ChildrenOK() && direction.Forward? && was < |all| && at == was + 1
      requires IsSmallest(Runs(), Positions(), current)
      requires forall i :: 0 <= i < |children| ==> StrictlyAfter(Runs()[i], Positions()[i], all[was].key)
      ensures Inv()
    {
      NextSmallest(Runs(), Positions(), all, current, was);
    }

    lemma LargestRestores(was: nat)
      requires ChildrenOK() && direction.Reverse? && was < |all| && at == if was == 0 then |all| else was - 1
      requires IsLargest(Runs(), Positions(), current)
      requires forall i :: 0 <= i < |children| ==> StrictlyBefore(Runs()[i], Positions()[i], all[was].key)
      ensures Inv()
    {
      PreviousLargest(Runs(), Positions(), all, current, was);
    }

    method StepForward()
      requires ChildrenOK() && direction.Forward? && current.Some? && at < |all|
      requires Stands(Runs(), Positions(), current.value, all[at])
      requires Positioned(Runs(), Positions(), Forward, current.value, all[at].key)
      modifies this, children
      ensures Inv() && at == old(at) + 1
    {
      AdvanceCurrent(current.value, all[at].key);
      at := at + 1;
      FindSmallest();
      SmallestRestores(at - 1);
    }

    method StepBackward()
      requires ChildrenOK() && direction.Reverse? && current.Some? && at < |all|
      requires Stands(Runs(), Positions(), current.value, all[at])
      requires Positioned(Runs(), Positions(), Reverse, current.value, all[at].key)
      modifies this, children
      ensures Inv() && at == if old(at) == 0 then |all| else old(at) - 1
    {
      StepCurrentBack(current.value, all[at].key);
      at := if at == 0 then |all| else at - 1;
      FindLargest();
      LargestRestores(old(at));
    }

    method Next()
      requires Inv() && Valid()
      modifies this, children
      ensures Inv() && at == old(at) + 1
    {
      TurnForward();
      StepForward();
    }

    method Prev()
      requires Inv() && Valid()
      modifies this, children
      ensures Inv() && at == if old(at) == 0 then |all| else old(at) - 1
    {
      TurnBackward();
      StepBackward();
    }
  }

  /** A child of a forward move: at its first entry at or after the key, then past the key. */
  method SeekPast(child: Cursor, k: InternalKey)
    requires child.Inv()
    modifies child
    ensures child.Inv() && StrictlyAfter(child.es, child.pos, k)
  {
    SortedByLess(child.es);
    child.Seek(k);
    if child.Valid() && child.Key() == k {
      child.Next();
    } else if child.Valid() {
      NotLess(child.Key(), k);
    }
  }

  lemma NotLess(a: InternalKey, b: InternalKey)
    requires !Less(a, b) && a != b
    ensures Less(b, a)
  {
  }

  /** A child of a backward move: one step back from its first entry at or after the key. */
  method SeekBefore(child: Cursor, k: InternalKey)
    requires child.Inv()
    modifies child
    ensures child.Inv() && StrictlyBefore(child.es, child.pos, k)
  {
    SortedByLess(child.es);
    child.Seek(k);
    if child.Valid() {
      child.Prev();
    } else {
      child.SeekToLast();
    }
  }

  lemma AdvancedPast(es: seq<Entry>, pos: nat)
    requires Sorted(es) && 0 < pos <= |es|
    ensures StrictlyAfter(es, pos, es[pos - 1].key)
  {
    SortedByLess(es);
  }

  lemma SteppedBefore(es: seq<Entry>, pos: nat)
    requires Sorted(es) && pos < |es|
    ensures StrictlyBefore(es, if pos == 0 then |es| else pos - 1, es[pos].key)
  {
    SortedByLess(es);
  }
}
