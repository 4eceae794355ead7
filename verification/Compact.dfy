/** The compaction loop (DBImpl::DoCompactionWork, Compaction::IsBaseLevelForKey) and when it
    preserves what readers see (db/db_impl.cc, db/version_set.cc). */
module Compact {
  import opened DbFormat
  import opened Versions
  import opened Ranges
  import opened Setup
  import opened Lookup

  /** No file below the output level has `user` in its range. */
  ghost predicate BaseLevel(v: Version, level: nat, user: UserKey) {
    forall l, f :: level + 2 <= l < |v| && f in v[l] ==> !Holds(f, user)
  }

  /** The first `at` files all end before `from`. */
  ghost predicate Passed(files: seq<File>, at: nat, from: UserKey) {
    at <= |files| && forall i :: 0 <= i < at ==> files[i].largest.user < from
  }

  /** The position that Compaction::IsBaseLevelForKey keeps in each deeper level. */
  class BaseLevelCursor {
    const v: Version
    const level: nat
    var levelPtrs: seq<nat>

    /** Valid for user keys from `from` on: the files passed over end before it. */
    ghost predicate Valid(from: UserKey)
      reads this
    {
      && |levelPtrs| == |v|
      && forall l :: level + 2 <= l < |v| ==> Passed(v[l], levelPtrs[l], from)
    }

    lemma ValidLater(from: UserKey, later: UserKey)
      requires Valid(from) && from <= later
      ensures Valid(later)
    {
    }

    constructor (v: Version, level: nat)
      ensures this.v == v && this.level == level
      ensures forall from :: Valid(from)
    {
      this.v := v;
      this.level := level;
      levelPtrs := seq(|v|, _ => 0);
    }

    /** Exact, as long as the user keys are asked about in ascending order. */
    method IsBaseLevelForKey(user: UserKey) returns (base: bool)
      requires VersionOK(v) && Valid(user)
      modifies this
      ensures base <==> BaseLevel(v, level, user)
      ensures Valid(user)
    {
      var lvl := level + 2;
      while lvl < NUM_LEVELS
        invariant level + 2 <= lvl
        invariant Valid(user)
        invariant forall l, f :: level + 2 <= l < lvl && l < |v| && f in v[l] ==> !Holds(f, user)
      {
        while levelPtrs[lvl] < |v[lvl]|
          invariant Valid(user)
          decreases |v[lvl]| - levelPtrs[lvl]
        {
          var f := v[lvl][levelPtrs[lvl]];
          if user <= f.largest.user {
            if user >= f.smallest.user {
              assert Holds(f, user);
              return false;
            }
            break;
          }
          levelPtrs := levelPtrs[lvl := levelPtrs[lvl] + 1];
        }
        NoneHolds(v[lvl], levelPtrs[lvl], user);
        lvl := lvl + 1;
      }
      base := true;
    }
  }

  lemma NoneHolds(files: seq<File>, at: nat, user: UserKey)
    requires AllWellFormed(files) && Disjoint(files)
    requires Passed(files, at, user)
    requires at < |files| ==> user < files[at].smallest.user
    ensures forall f :: f in files ==> !Holds(f, user)
  {
    LevelAscends(files);
    forall f | f in files
      ensures !Holds(f, user)
    {
      var i :| 0 <= i < |files| && files[i] == f;
      if i > at {
        assert files[at].smallest.user <= files[at].largest.user <= files[i].smallest.user;
      }
    }
  }

  // ---- Which entries the loop drops

  /** A newer input entry of the same user key is old enough for every reader to see. */
  ghost predicate Hidden(inputs: set<Entry>, smallest: SequenceNumber, e: Entry) {
    exists x :: x in inputs && x.key.user == e.key.user && e.key.sequence < x.key.sequence <= smallest
  }

  /** A deletion marker with nothing left to delete below the output level. */
  ghost predicate Obsolete(v: Version, level: nat, smallest: SequenceNumber, e: Entry) {
    e.key.kind.TypeDeletion? && e.key.sequence <= smallest && BaseLevel(v, level, e.key.user)
  }

  ghost predicate Dropped(v: Version, level: nat, inputs: set<Entry>, smallest: SequenceNumber, e: Entry) {
    Hidden(inputs, smallest, e) || Obsolete(v, level, smallest, e)
  }

  ghost function Kept(v: Version, level: nat, inputs: set<Entry>, smallest: SequenceNumber): set<Entry> {
    set e | e in inputs && !Dropped(v, level, inputs, smallest, e)
  }

  ghost function Survivors(v: Version, level: nat, inputs: set<Entry>, smallest: SequenceNumber, es: seq<Entry>): seq<Entry> {
    if es == [] then []
    else
      var n := |es| - 1;
      Survivors(v, level, inputs, smallest, es[..n])
        + if Dropped(v, level, inputs, smallest, es[n]) then [] else [es[n]]
  }

  /** The loop's memory of the last entry is enough to decide rule (A). */
  lemma LastSequenceDecides(input: seq<Entry>, n: nat, smallest: SequenceNumber)
    requires Sorted(input) && n < |input|
    ensures Hidden(Elements(input), smallest, input[n]) <==>
              n > 0 && input[n - 1].key.user == input[n].key.user && input[n - 1].key.sequence <= smallest
  {
    var e := input[n];
    if n > 0 && input[n - 1].key.user == e.key.user && input[n - 1].key.sequence <= smallest {
      assert Before(input[n - 1].key, e.key);
      assert input[n - 1] in Elements(input);
      assert Hidden(Elements(input), smallest, e);
    }
    if Hidden(Elements(input), smallest, e) {
      var x :| x in Elements(input) && x.key.user == e.key.user && e.key.sequence < x.key.sequence <= smallest;
      var i :| 0 <= i < |input| && input[i] == x;
      assert !(n <= i);
      if i < n - 1 {
        assert Before(input[i].key, input[n - 1].key);
        assert Before(input[n - 1].key, e.key);
      }
    }
  }

  /** Of two entries of a user key the newer one is above the oldest snapshot: some reader needs both. */
  ghost predicate ShadowedGone(out: seq<Entry>, smallest: SequenceNumber) {
    forall i, j :: 0 <= i < j < |out| && out[i].key.user == out[j].key.user ==> out[i].key.sequence > smallest
  }

  /** A deletion marker that all readers see has a file below the output level whose range holds its key. */
  ghost predicate MarkersNeeded(v: Version, level: nat, out: seq<Entry>, smallest: SequenceNumber) {
    forall e :: e in out && e.key.kind.TypeDeletion? && e.key.sequence <= smallest
      ==> exists l, f :: level + 2 <= l < |v| && f in v[l] && f.smallest.user <= e.key.user <= f.largest.user
  }

  /** What is gone had a newer entry of its user key that all readers see, or was a marker that all readers
      see with no such file below. */
  ghost predicate OnlyShadowsGo(v: Version, level: nat, input: seq<Entry>, out: seq<Entry>, smallest: SequenceNumber) {
    && (forall e :: e in out ==> e in input)
    && forall e :: e in input && e !in out ==> Shadowed(input, smallest, e) || NothingBelow(v, level, smallest, e)
  }

  ghost predicate Shadowed(input: seq<Entry>, smallest: SequenceNumber, e: Entry) {
    exists x :: x in input && x.key.user == e.key.user && e.key.sequence < x.key.sequence <= smallest
  }

  ghost predicate NothingBelow(v: Version, level: nat, smallest: SequenceNumber, e: Entry) {
    && e.key.kind.TypeDeletion? && e.key.sequence <= smallest
    && forall l, f :: level + 2 <= l < |v| && f in v[l] ==> !(f.smallest.user <= e.key.user <= f.largest.user)
  }

  /** The survivors are as few as the readers allow. */
  lemma SurvivorsAreNeeded(v: Version, level: nat, input: seq<Entry>, smallest: SequenceNumber)
    requires Sorted(input)
    ensures var out := Survivors(v, level, Elements(input), smallest, input);
      ShadowedGone(out, smallest) && MarkersNeeded(v, level, out, smallest) && OnlyShadowsGo(v, level, input, out, smallest)
  {
    var inputs := Elements(input);
    var out := Survivors(v, level, inputs, smallest, input);
    SurvivorsAreKept(v, level, inputs, smallest, input);
    forall i, j | 0 <= i < j < |out| && out[i].key.user == out[j].key.user
      ensures out[i].key.sequence > smallest
    {
      assert out[i] in out && out[j] in out && Before(out[i].key, out[j].key);
      assert out[i] in inputs && !Hidden(inputs, smallest, out[j]);
    }
    forall e | e in out && e.key.kind.TypeDeletion? && e.key.sequence <= smallest
      ensures exists l, f :: level + 2 <= l < |v| && f in v[l] && f.smallest.user <= e.key.user <= f.largest.user
    {
      assert !BaseLevel(v, level, e.key.user);
      var l, f :| level + 2 <= l < |v| && f in v[l] && Holds(f, e.key.user);
    }
    forall e | e in input && e !in out
      ensures Shadowed(input, smallest, e) || NothingBelow(v, level, smallest, e)
    {
      assert Dropped(v, level, inputs, smallest, e);
      if Hidden(inputs, smallest, e) {
        var x :| x in inputs && x.key.user == e.key.user && e.key.sequence < x.key.sequence <= smallest;
        assert x in input && Shadowed(input, smallest, e);
      } else {
        assert NothingBelow(v, level, smallest, e) by {
          forall l, f | level + 2 <= l < |v| && f in v[l]
            ensures !(f.smallest.user <= e.key.user <= f.largest.user)
          {
            assert !Holds(f, e.key.user);
          }
        }
      }
    }
  }

  /** The output files of a compaction; `builder` is the one being written, if any. */
  class CompactionState {
    var outputs: seq<seq<Entry>>
    var builder: Option<seq<Entry>>

    ghost predicate Valid()
      reads this
    {
      (forall o :: o in outputs ==> o != []) && (builder.Some? ==> builder.value != [])
    }

    ghost function Contents(): seq<Entry>
      reads this
    {
      Flatten(outputs) + if builder.Some? then builder.value else []
    }

    constructor ()
      ensures Valid() && Contents() == [] && builder.None?
    {
      outputs, builder := [], None;
    }

    method Add(e: Entry)
      requires Valid()
      modifies this
      ensures Valid() && builder.Some? && Contents() == old(Contents()) + [e]
    {
      builder := Some(if builder.None? then [e] else builder.value + [e]);
    }

    method FinishCompactionOutputFile()
      requires Valid() && builder.Some?
      modifies this
      ensures Valid() && builder.None? && Contents() == old(Contents())
    {
      FlattenAppend(outputs, builder.value);
      outputs, builder := outputs + [builder.value], None;
    }
  }

  /** DBImpl::DoCompactionWork: `input` is the merged input iterator. Where the outputs are cut
      (ShouldStopBefore, the size of the file so far) is left open. */
  method DoCompactionWork(v: Version, level: nat, input: seq<Entry>, smallest: SequenceNumber)
    returns (outputs: seq<seq<Entry>>)
    requires VersionOK(v) && Sorted(input) && smallest < MAX_SEQUENCE_NUMBER
    ensures Flatten(outputs) == Survivors(v, level, Elements(input), smallest, input)
    ensures forall o :: o in outputs ==> o != []
    ensures ShadowedGone(Flatten(outputs), smallest) && MarkersNeeded(v, level, Flatten(outputs), smallest)
    ensures OnlyShadowsGo(v, level, input, Flatten(outputs), smallest)
  {
    var compact := new CompactionState();
    var cursor := new BaseLevelCursor(v, level);
    var currentUserKey: Option<UserKey> := None;
    var lastSequenceForKey := MAX_SEQUENCE_NUMBER;
    ghost var inputs := Elements(input);
    ghost var asked := if input == [] then 0.0 else input[0].key.user;
    var n := 0;
    while n < |input|
      invariant 0 <= n <= |input|
      invariant currentUserKey == if n == 0 then None else Some(input[n - 1].key.user)
      invariant n > 0 ==> lastSequenceForKey == input[n - 1].key.sequence
      invariant cursor.v == v && cursor.level == level && fresh(cursor) && fresh(compact)
      invariant cursor.Valid(asked) && (n < |input| ==> asked <= input[n].key.user)
      invariant compact.Valid() && compact.Contents() == Survivors(v, level, inputs, smallest, input[..n])
    {
      var e := input[n];
      var stop: bool := *;
      if stop && compact.builder.Some? {
        compact.FinishCompactionOutputFile();
      }
      var drop := false;
      if currentUserKey != Some(e.key.user) {
        currentUserKey := Some(e.key.user);
        lastSequenceForKey := MAX_SEQUENCE_NUMBER;
      }
      LastSequenceDecides(input, n, smallest);
      if lastSequenceForKey <= smallest {
        drop := true;
      } else if e.key.kind.TypeDeletion? && e.key.sequence <= smallest {
        cursor.ValidLater(asked, e.key.user);
        drop := cursor.IsBaseLevelForKey(e.key.user);
        asked := e.key.user;
      }
      lastSequenceForKey := e.key.sequence;
      assert drop <==> Dropped(v, level, inputs, smallest, e);
      SurvivorsNext(v, level, inputs, smallest, input, n);
      if !drop {
        compact.Add(e);
        var full: bool := *;
        if full {
          compact.FinishCompactionOutputFile();
        }
      }
      n := n + 1;
      assert n < |input| ==> Before(e.key, input[n].key);
    }
    assert input[..n] == input;
    if compact.builder.Some? {
      compact.FinishCompactionOutputFile();
    }
    outputs := compact.outputs;
    SurvivorsAreNeeded(v, level, input, smallest);
  }

  lemma SurvivorsNext(v: Version, level: nat, inputs: set<Entry>, smallest: SequenceNumber, es: seq<Entry>, n: nat)
    requires n < |es|
    ensures Survivors(v, level, inputs, smallest, es[..n + 1])
         == Survivors(v, level, inputs, smallest, es[..n])
              + if Dropped(v, level, inputs, smallest, es[n]) then [] else [es[n]]
  {
    assert es[..n + 1][..n] == es[..n];
  }

  lemma {:induction false} SurvivorsAreKept(v: Version, level: nat, inputs: set<Entry>, smallest: SequenceNumber, es: seq<Entry>)
    requires Sorted(es)
    ensures Sorted(Survivors(v, level, inputs, smallest, es))
    ensures forall e :: e in Survivors(v, level, inputs, smallest, es)
                   <==> e in es && !Dropped(v, level, inputs, smallest, e)
  {
    if es != [] {
      var n := |es| - 1;
      assert es == es[..n] + [es[n]];
      SurvivorsAreKept(v, level, inputs, smallest, es[..n]);
      forall x | x in es[..n]
        ensures Before(x.key, es[n].key)
      {
      }
    }
  }
}
