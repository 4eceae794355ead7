/** What installing a compaction does to the version and to its readers (db/db_impl.cc,
    db/version_set.cc). */
module Preserve {
  import opened DbFormat
  import opened Versions
  import opened Ranges
  import opened Setup
  import opened Compact

  // ---- The entries that a compaction reads and those it leaves alone

  ghost function Without(files: seq<File>, removed: seq<File>): seq<File> {
    if files == [] then []
    else
      var n := |files| - 1;
      Without(files[..n], removed) + if files[n] in removed then [] else [files[n]]
  }

  lemma {:induction false} WithoutMembers(files: seq<File>, removed: seq<File>)
    ensures forall f :: f in Without(files, removed) <==> f in files && f !in removed
  {
    if files != [] {
      var n := |files| - 1;
      WithoutMembers(files[..n], removed);
      assert files == files[..n] + [files[n]];
    }
  }

  /** The files of level `l` that the compaction does not replace. */
  ghost function Staying(v: Version, c: Compaction, l: nat): seq<File>
    requires l < |v|
  {
    if l == c.level then Without(v[l], c.inputs0)
    else if l == c.level + 1 then Without(v[l], c.inputs1)
    else v[l]
  }

  ghost function Rest(v: Version, c: Compaction): Version {
    seq(|v|, l requires 0 <= l < |v| => Staying(v, c, l))
  }

  ghost function InputEntries(c: Compaction): set<Entry> {
    FileEntries(c.Inputs())
  }

  lemma EntriesSplit(v: Version, c: Compaction)
    requires InputsClosed(v, c)
    ensures VersionEntries(v) == VersionEntries(Rest(v, c)) + InputEntries(c)
  {
    forall e
      ensures e in VersionEntries(v) <==> e in VersionEntries(Rest(v, c)) + InputEntries(c)
    {
      StoredSomewhere(v, e);
      StoredSomewhere(Rest(v, c), e);
      WithoutMembers(v[c.level], c.inputs0);
      WithoutMembers(v[c.level + 1], c.inputs1);
      if e in VersionEntries(v) {
        var l :| 0 <= l < |v| && StoredAt(v, l, e);
        var f :| f in v[l] && e in f.entries;
        if f in Staying(v, c, l) {
          assert StoredAt(Rest(v, c), l, e);
        } else {
          assert f in c.Inputs();
        }
      }
      if e in VersionEntries(Rest(v, c)) {
        var l :| 0 <= l < |v| && StoredAt(Rest(v, c), l, e);
        var f :| f in Rest(v, c)[l] && e in f.entries;
        assert f in v[l] && StoredAt(v, l, e);
      }
      if e in InputEntries(c) {
        var f :| f in c.Inputs() && e in f.entries;
        assert StoredAt(v, if f in c.inputs0 then c.level else c.level + 1, e);
      }
    }
  }

  /** Older entries that stay are at the output level, or deeper. */
  lemma OlderRestIsDeep(v: Version, c: Compaction, e: Entry, l: nat, g: File, w: Entry)
    requires VersionOK(v) && InputsClosed(v, c) && e in InputEntries(c)
    requires l < |v| && g in Staying(v, c, l) && w in g.entries
    requires w.key.user == e.key.user && w.key.sequence < e.key.sequence
    ensures l >= c.level + 1 && g in v[l] && Holds(g, w.key.user)
  {
    var f :| f in c.Inputs() && e in f.entries;
    WithoutMembers(v[c.level], c.inputs0);
    WithoutMembers(v[c.level + 1], c.inputs1);
    EntryWithinFile(g, w);
    assert l <= c.level ==> NewerThan(g, f);
  }

  // ---- Installing the outputs

  /** How VersionSet::Builder leaves a level: in key order, each file once. */
  ghost predicate InKeyOrder(files: seq<File>) {
    forall i, j :: 0 <= i < j < |files| ==> !Less(files[j].smallest, files[i].smallest) && files[i] != files[j]
  }

  /** `w` is `v` after LogAndApply of the compaction's edit: the inputs are gone, and the
      output tables `outs` have joined the output level in key order. */
  ghost predicate Installed(v: Version, c: Compaction, outs: seq<File>, w: Version) {
    && |w| == |v| && c.level + 1 < |v|
    && (forall l :: 0 <= l < |v| && l != c.level + 1 ==> w[l] == Staying(v, c, l))
    && Merged(Staying(v, c, c.level + 1), outs, w[c.level + 1])
    && InKeyOrder(w[c.level + 1])
  }

  ghost predicate Merged(staying: seq<File>, outs: seq<File>, files: seq<File>) {
    forall f :: f in files <==> f in staying || f in outs
  }

  /** Tables whose entries all come from the inputs. */
  ghost predicate OutputsFrom(c: Compaction, outs: seq<File>) {
    AllWellFormed(outs) && Disjoint(outs) && FileEntries(outs) <= InputEntries(c)
  }

  /** The tables that DoCompactionWork wrote for these inputs. */
  ghost predicate Outputs(v: Version, c: Compaction, smallest: SequenceNumber, outs: seq<File>) {
    && OutputsFrom(c, outs)
    && FileEntries(outs) == Kept(v, c.level, InputEntries(c), smallest)
  }

  lemma EntriesAfter(v: Version, c: Compaction, outs: seq<File>, w: Version)
    requires Installed(v, c, outs, w)
    ensures VersionEntries(w) == VersionEntries(Rest(v, c)) + FileEntries(outs)
  {
    forall e
      ensures e in VersionEntries(w) <==> e in VersionEntries(Rest(v, c)) + FileEntries(outs)
    {
      StoredSomewhere(w, e);
      StoredSomewhere(Rest(v, c), e);
      if e in VersionEntries(w) {
        var l :| 0 <= l < |w| && StoredAt(w, l, e);
        var f :| f in w[l] && e in f.entries;
        assert f in Staying(v, c, l) ==> StoredAt(Rest(v, c), l, e);
      }
      if e in VersionEntries(Rest(v, c)) {
        var l :| 0 <= l < |v| && StoredAt(Rest(v, c), l, e);
        var f :| f in Rest(v, c)[l] && e in f.entries;
        assert f in w[l] && StoredAt(w, l, e);
      }
      if e in FileEntries(outs) {
        var f :| f in outs && e in f.entries;
        assert StoredAt(w, c.level + 1, e);
      }
    }
  }

  // ---- Readers

  /** The one way in which a compaction can change a read: the deletion marker of `user` is
      dropped, but a file left at the output level begins with an older value of that very
      user key, and nothing that stays hides that value from the oldest snapshot. */
  ghost predicate Resurrects(v: Version, c: Compaction, smallest: SequenceNumber, user: UserKey) {
    exists e, g ::
      && e in InputEntries(c) && e.key.user == user
      && Obsolete(v, c.level, smallest, e) && !Hidden(InputEntries(c), smallest, e)
      && c.level + 1 < |v| && g in Staying(v, c, c.level + 1)
      && Exposes(v, c, smallest, e, g)
  }

  /** File `g` starts with an older value of the user key of `e`, and no entry that stays is
      newer than it and visible at `smallest`. */
  ghost predicate Exposes(v: Version, c: Compaction, smallest: SequenceNumber, e: Entry, g: File) {
    && g.smallest.user == e.key.user && g.smallest.kind.TypeValue? && g.smallest.sequence < e.key.sequence
    && forall x :: x in VersionEntries(Rest(v, c)) && x.key.user == e.key.user && x.key.sequence <= smallest
         ==> x.key.sequence <= g.smallest.sequence
  }

  /** Shrinking a store can change a read only by removing the entry that decides it. */
  lemma ShrunkRead(before: set<Entry>, after: set<Entry>, user: UserKey, snap: SequenceNumber)
    requires UniqueSequence(before) && after <= before
    ensures Read(before, user, snap) == Read(after, user, snap)
         || exists e :: Newest(before, user, snap, e) && e !in after && Read(after, user, snap) != Meaning(e)
  {
    NothingOrNewest(before, user, snap);
    if e :| Newest(before, user, snap, e) {
      ReadOfNewest(before, user, snap, e);
      if e in after {
        assert Newest(after, user, snap, e);
        ReadOfNewest(after, user, snap, e);
      }
    } else {
      assert Nothing(after, user, snap);
    }
  }

  lemma ValueRead(s: set<Entry>, user: UserKey, snap: SequenceNumber) returns (x: Entry)
    requires UniqueSequence(s) && Read(s, user, snap) != None
    ensures Newest(s, user, snap, x) && x.key.kind.TypeValue?
  {
    NothingOrNewest(s, user, snap);
    x :| Newest(s, user, snap, x);
    ReadOfNewest(s, user, snap, x);
  }

  /** A read that changes is a resurrection. */
  lemma ChangedReadResurrects(v: Version, c: Compaction, smallest: SequenceNumber, outs: seq<File>, w: Version,
                              user: UserKey, snap: SequenceNumber)
    requires VersionOK(v) && InputsClosed(v, c)
    requires Outputs(v, c, smallest, outs) && Installed(v, c, outs, w) && smallest <= snap
    ensures Read(VersionEntries(v), user, snap) == Read(VersionEntries(w), user, snap)
         || Resurrects(v, c, smallest, user)
  {
    var before, after := VersionEntries(v), VersionEntries(w);
    EntriesSplit(v, c);
    EntriesAfter(v, c, outs, w);
    VersionIsUnique(v);
    assert after <= before;
    ShrunkRead(before, after, user, snap);
    if e :| Newest(before, user, snap, e) && e !in after && Read(after, user, snap) != Meaning(e) {
      DroppedIsObsolete(v, c, smallest, user, snap, e);
      var x := ValueRead(after, user, snap);
      ExposedValueResurrects(v, c, smallest, e, x);
    }
  }

  /** If the loop dropped the entry that decides a read, it did so by the second rule. */
  lemma DroppedIsObsolete(v: Version, c: Compaction, smallest: SequenceNumber, user: UserKey, snap: SequenceNumber, e: Entry)
    requires InputsClosed(v, c) && smallest <= snap && Newest(VersionEntries(v), user, snap, e)
    requires e !in VersionEntries(Rest(v, c)) + Kept(v, c.level, InputEntries(c), smallest)
    ensures e in InputEntries(c) && Obsolete(v, c.level, smallest, e) && !Hidden(InputEntries(c), smallest, e)
  {
    EntriesSplit(v, c);
  }

  lemma ExposedValueResurrects(v: Version, c: Compaction, smallest: SequenceNumber, e: Entry, x: Entry)
    requires VersionOK(v) && InputsClosed(v, c)
    requires e in InputEntries(c) && Obsolete(v, c.level, smallest, e) && !Hidden(InputEntries(c), smallest, e)
    requires x in VersionEntries(Rest(v, c)) + Kept(v, c.level, InputEntries(c), smallest)
    requires x.key.user == e.key.user && x.key.sequence < e.key.sequence && x.key.kind.TypeValue?
    requires forall y :: y in VersionEntries(Rest(v, c)) && y.key.user == e.key.user && y.key.sequence <= smallest
                     ==> y.key.sequence <= x.key.sequence
    ensures Resurrects(v, c, smallest, e.key.user)
  {
    var rest := VersionEntries(Rest(v, c));
    assert x in rest by {
      if x in Kept(v, c.level, InputEntries(c), smallest) {
        assert Hidden(InputEntries(c), smallest, x);
        assert false;
      }
    }
    StoredSomewhere(Rest(v, c), x);
    var l :| 0 <= l < |v| && StoredAt(Rest(v, c), l, x);
    var g :| g in Rest(v, c)[l] && x in g.entries;
    OlderRestIsDeep(v, c, e, l, g, x);
    assert l == c.level + 1;
    var first := g.entries[0];
    FirstOfExposed(v, c, e, g, x);
    assert StoredAt(Rest(v, c), l, first);
    StoredSomewhere(Rest(v, c), first);
    assert first == x by {
      assert first.key.sequence <= e.key.sequence;
      var i :| 0 <= i < |g.entries| && g.entries[i] == x;
      assert i > 0 ==> Before(first.key, x.key);
    }
    assert Exposes(v, c, smallest, e, g);
  }

  /** A file left at the output level that holds older entries of an input's user key starts
      with them: it lies behind all inputs. */
  lemma FirstOfExposed(v: Version, c: Compaction, e: Entry, g: File, x: Entry)
    requires VersionOK(v) && InputsClosed(v, c) && e in InputEntries(c)
    requires g in Staying(v, c, c.level + 1) && x in g.entries
    requires x.key.user == e.key.user && x.key.sequence < e.key.sequence
    ensures WellFormed(g) && g.entries[0].key.user == e.key.user && g.entries[0].key.sequence < e.key.sequence
  {
    WithoutMembers(v[c.level + 1], c.inputs1);
    var f :| f in c.Inputs() && e in f.entries;
    assert WellFormed(g) && WellFormed(f);
    EntryWithinFile(f, e);
    EntryWithinFile(g, x);
    EntryWithinFile(g, g.entries[0]);
    assert OnOneSide(g, c.Inputs());
    assert Before(g.largest, f.smallest) || Before(f.largest, g.smallest);
  }

  /** A resurrection changes what a reader at the oldest snapshot sees. */
  lemma ResurrectionChangesRead(v: Version, c: Compaction, smallest: SequenceNumber, outs: seq<File>, w: Version,
                                user: UserKey)
    requires VersionOK(v) && InputsClosed(v, c)
    requires Outputs(v, c, smallest, outs) && Installed(v, c, outs, w)
    requires Resurrects(v, c, smallest, user)
    ensures Read(VersionEntries(v), user, smallest) == None
    ensures Read(VersionEntries(w), user, smallest) != None
  {
    var before, after := VersionEntries(v), VersionEntries(w);
    EntriesSplit(v, c);
    EntriesAfter(v, c, outs, w);
    VersionIsUnique(v);
    assert UniqueSequence(after);
    var e, g :|
      && e in InputEntries(c) && e.key.user == user
      && Obsolete(v, c.level, smallest, e) && !Hidden(InputEntries(c), smallest, e)
      && g in Staying(v, c, c.level + 1)
      && Exposes(v, c, smallest, e, g);
    assert Newest(before, user, smallest, e);
    ReadOfNewest(before, user, smallest, e);
    var x := ExposedIsNewest(v, c, smallest, e, g);
    ReadOfNewest(after, user, smallest, x);
  }

  lemma ExposedIsNewest(v: Version, c: Compaction, smallest: SequenceNumber, e: Entry, g: File) returns (x: Entry)
    requires VersionOK(v) && InputsClosed(v, c) && e in InputEntries(c)
    requires Obsolete(v, c.level, smallest, e) && !Hidden(InputEntries(c), smallest, e)
    requires g in Staying(v, c, c.level + 1) && Exposes(v, c, smallest, e, g)
    ensures Newest(VersionEntries(Rest(v, c)) + Kept(v, c.level, InputEntries(c), smallest), e.key.user, smallest, x)
    ensures x.key.kind.TypeValue?
  {
    WithoutMembers(v[c.level + 1], c.inputs1);
    assert WellFormed(g);
    x := g.entries[0];
    assert StoredAt(Rest(v, c), c.level + 1, x);
    StoredSomewhere(Rest(v, c), x);
    forall y | y in Kept(v, c.level, InputEntries(c), smallest) && y.key.user == e.key.user
      ensures y.key.sequence > smallest
    {
      KeptIsNotObsolete(v, c, smallest, e, y);
      assert y.key.sequence < e.key.sequence ==> Hidden(InputEntries(c), smallest, y);
    }
  }

  lemma KeptIsNotObsolete(v: Version, c: Compaction, smallest: SequenceNumber, e: Entry, y: Entry)
    requires VersionOK(v) && InputsClosed(v, c) && e in InputEntries(c) && Obsolete(v, c.level, smallest, e)
    requires y in Kept(v, c.level, InputEntries(c), smallest) && y.key.user == e.key.user
    ensures y.key.sequence != e.key.sequence
  {
    EntriesSplit(v, c);
    VersionIsUnique(v);
  }

  /** Installing a compaction preserves every read at or above the oldest snapshot if and only
      if it resurrects no user key. */
  lemma ReadsPreservedIff(v: Version, c: Compaction, smallest: SequenceNumber, outs: seq<File>, w: Version)
    requires VersionOK(v) && InputsClosed(v, c)
    requires Outputs(v, c, smallest, outs) && Installed(v, c, outs, w)
    ensures (forall user, snap :: snap >= smallest ==>
               Read(VersionEntries(v), user, snap) == Read(VersionEntries(w), user, snap))
       <==> !exists user :: Resurrects(v, c, smallest, user)
  {
    if user :| Resurrects(v, c, smallest, user) {
      ResurrectionChangesRead(v, c, smallest, outs, w, user);
    } else {
      forall user, snap | snap >= smallest
        ensures Read(VersionEntries(v), user, snap) == Read(VersionEntries(w), user, snap)
      {
        ChangedReadResurrects(v, c, smallest, outs, w, user, snap);
      }
    }
  }

  // ---- The order of the installed version

  /** One of the two files lies entirely before the other. */
  ghost predicate Separate(f: File, g: File) {
    Before(f.largest, g.smallest) || Before(g.largest, f.smallest)
  }

  lemma SeparateFilesDisjoint(files: seq<File>)
    requires AllWellFormed(files) && InKeyOrder(files)
    requires forall f, g :: f in files && g in files && f != g ==> Separate(f, g)
    ensures Disjoint(files)
  {
    forall i, j | 0 <= i < j < |files|
      ensures Before(files[i].largest, files[j].smallest)
    {
      RangeIsProper(files[j]);
      assert Separate(files[i], files[j]);
    }
  }

  lemma {:induction false} WithoutKeepsDisjoint(files: seq<File>, removed: seq<File>)
    requires Disjoint(files)
    ensures Disjoint(Without(files, removed))
  {
    if files != [] {
      var n := |files| - 1;
      WithoutKeepsDisjoint(files[..n], removed);
      WithoutMembers(files[..n], removed);
      forall f | f in files[..n]
        ensures Before(f.largest, files[n].smallest)
      {
      }
    }
  }

  lemma {:induction false} WithoutKeepsNumbers(files: seq<File>, removed: seq<File>)
    requires DistinctNumbers(files)
    ensures DistinctNumbers(Without(files, removed))
  {
    if files != [] {
      var n := |files| - 1;
      WithoutKeepsNumbers(files[..n], removed);
      WithoutMembers(files[..n], removed);
      forall f | f in files[..n]
        ensures f.number != files[n].number
      {
      }
    }
  }

  /** A file that stays at the output level is separate from every output. */
  lemma OutputsBesideStaying(v: Version, c: Compaction, outs: seq<File>, g: File, o: File)
    requires VersionOK(v) && InputsClosed(v, c) && OutputsFrom(c, outs)
    requires g in Staying(v, c, c.level + 1) && o in outs
    ensures Separate(g, o)
  {
    WithoutMembers(v[c.level + 1], c.inputs1);
    assert OnOneSide(g, c.Inputs());
    assert WellFormed(o);
    var first, last := o.entries[0], o.entries[|o.entries| - 1];
    var f := InputOfOutput(v, c, outs, o, first);
    var h := InputOfOutput(v, c, outs, o, last);
    EntryWithinFile(f, first);
    EntryWithinFile(h, last);
  }

  lemma InputOfOutput(v: Version, c: Compaction, outs: seq<File>, o: File, e: Entry)
    returns (f: File)
    requires VersionOK(v) && InputsApart(v, c) && OutputsFrom(c, outs) && o in outs && e in o.entries
    ensures f in c.Inputs() && e in f.entries && WellFormed(f)
  {
    assert e in FileEntries(outs);
    f :| f in c.Inputs() && e in f.entries;
  }

  /** No output reaches across a file that stays at the output level. */
  ghost predicate OutputsBeside(v: Version, c: Compaction, outs: seq<File>)
    requires InputsApart(v, c)
  {
    forall g, o :: g in Staying(v, c, c.level + 1) && o in outs ==> Separate(g, o)
  }

  lemma InstalledLevelDisjoint(v: Version, c: Compaction, outs: seq<File>, w: Version)
    requires VersionOK(v) && InputsApart(v, c) && OutputsFrom(c, outs) && Installed(v, c, outs, w)
    requires OutputsBeside(v, c, outs)
    ensures AllWellFormed(w[c.level + 1]) && Disjoint(w[c.level + 1])
  {
    var files := w[c.level + 1];
    WithoutMembers(v[c.level + 1], c.inputs1);
    forall f, g | f in files && g in files && f != g
      ensures Separate(f, g)
    {
      if f in Staying(v, c, c.level + 1) && g in Staying(v, c, c.level + 1) {
        var i :| 0 <= i < |v[c.level + 1]| && v[c.level + 1][i] == f;
        var j :| 0 <= j < |v[c.level + 1]| && v[c.level + 1][j] == g;
      } else if f in outs && g in outs {
        var i :| 0 <= i < |outs| && outs[i] == f;
        var j :| 0 <= j < |outs| && outs[j] == g;
      } else if f in outs {
        assert Separate(g, f);
      } else {
        assert Separate(f, g);
      }
    }
    SeparateFilesDisjoint(files);
  }

  lemma OutputAge(v: Version, c: Compaction, outs: seq<File>, o: File, l: nat, g: File)
    requires VersionOK(v) && InputsApart(v, c) && OutputsFrom(c, outs)
    requires o in outs && l < |v| && g in Staying(v, c, l)
    ensures l < c.level + 1 ==> NewerThan(g, o)
    ensures l > c.level + 1 ==> NewerThan(o, g)
  {
    WithoutMembers(v[c.level], c.inputs0);
    forall e, x | e in o.entries && x in g.entries && e.key.user == x.key.user
      ensures l < c.level + 1 ==> x.key.sequence > e.key.sequence
      ensures l > c.level + 1 ==> e.key.sequence > x.key.sequence
    {
      var f := InputOfOutput(v, c, outs, o, e);
      assert l < c.level ==> NewerThan(g, f);
      assert l == c.level ==> NewerThan(g, f);
      assert l > c.level + 1 ==> NewerThan(f, g);
    }
  }

  /** Installing a compaction keeps the invariant of versions, whatever it drops. */
  lemma InstalledVersionOK(v: Version, c: Compaction, outs: seq<File>, w: Version)
    requires VersionOK(v) && InputsClosed(v, c) && OutputsFrom(c, outs) && Installed(v, c, outs, w)
    ensures VersionOK(w)
  {
    forall g, o | g in Staying(v, c, c.level + 1) && o in outs
      ensures Separate(g, o)
    {
      OutputsBesideStaying(v, c, outs, g, o);
    }
    InstalledBeside(v, c, outs, w);
  }

  /** For inputs with gaps, into which a table may have been flushed, the condition is exact: no output
      reaches across a file that stays. */
  lemma InstalledVersionOKIff(v: Version, c: Compaction, outs: seq<File>, w: Version)
    requires VersionOK(v) && InputsApart(v, c) && OutputsFrom(c, outs) && Installed(v, c, outs, w)
    ensures VersionOK(w) <==> OutputsBeside(v, c, outs)
  {
    if VersionOK(w) {
      var level := w[c.level + 1];
      forall g, o | g in Staying(v, c, c.level + 1) && o in outs
        ensures Separate(g, o)
      {
        OutputIsNew(v, c, outs, g, o);
        var i :| 0 <= i < |level| && level[i] == g;
        var j :| 0 <= j < |level| && level[j] == o;
      }
    } else if OutputsBeside(v, c, outs) {
      InstalledBeside(v, c, outs, w);
    }
  }

  /** No output is a file that stays: its entries are elsewhere. */
  lemma OutputIsNew(v: Version, c: Compaction, outs: seq<File>, g: File, o: File)
    requires VersionOK(v) && InputsApart(v, c) && OutputsFrom(c, outs)
    requires g in Staying(v, c, c.level + 1) && o in outs
    ensures g != o
  {
    WithoutMembers(v[c.level + 1], c.inputs1);
    if g == o {
      var e := g.entries[0];
      var f := InputOfOutput(v, c, outs, o, e);
      EntryWithinFile(f, e);
      EntryWithinFile(g, e);
      SharedEntry(v[c.level + 1], f, g, e);
    }
  }

  /** Two files of a sorted level share no entry. */
  lemma SharedEntry(files: seq<File>, f: File, g: File, e: Entry)
    requires AllWellFormed(files) && Disjoint(files) && f in files && g in files && e in f.entries && e in g.entries
    ensures f == g
  {
    var i :| 0 <= i < |files| && files[i] == f;
    var j :| 0 <= j < |files| && files[j] == g;
    EntryWithinFile(f, e);
    EntryWithinFile(g, e);
  }

  lemma InstalledBeside(v: Version, c: Compaction, outs: seq<File>, w: Version)
    requires VersionOK(v) && InputsApart(v, c) && OutputsFrom(c, outs) && Installed(v, c, outs, w)
    requires OutputsBeside(v, c, outs)
    ensures VersionOK(w)
  {
    InstalledLevelDisjoint(v, c, outs, w);
    WithoutMembers(v[c.level], c.inputs0);
    WithoutMembers(v[c.level + 1], c.inputs1);
    forall l | 0 <= l < |v|
      ensures AllWellFormed(Staying(v, c, l)) && (l > 0 ==> Disjoint(Staying(v, c, l)))
    {
      if l > 0 {
        WithoutKeepsDisjoint(v[l], c.inputs0);
        WithoutKeepsDisjoint(v[l], c.inputs1);
      }
    }
    WithoutKeepsNumbers(v[0], c.inputs0);
    InstalledAge(v, c, outs, w);
  }

  lemma InstalledAge(v: Version, c: Compaction, outs: seq<File>, w: Version)
    requires VersionOK(v) && InputsApart(v, c) && OutputsFrom(c, outs) && Installed(v, c, outs, w)
    ensures LevelsByAge(w)
  {
    WithoutMembers(v[c.level], c.inputs0);
    WithoutMembers(v[c.level + 1], c.inputs1);
    forall l, m, f, g | 0 <= l < m < |w| && f in w[l] && g in w[m]
      ensures NewerThan(f, g)
    {
      var fStays, gStays := f in Staying(v, c, l), g in Staying(v, c, m);
      if fStays && gStays {
        assert f in v[l] && g in v[m];
      } else if gStays {
        OutputAge(v, c, outs, f, m, g);
      } else {
        OutputAge(v, c, outs, g, l, f);
      }
    }
  }
}
