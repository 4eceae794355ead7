/** Point lookups: Version::Get and DBImpl::Get (db/version_set.cc, db/db_impl.cc,
    db/memtable.cc), against the specification `DbFormat.Read`. */
module Lookup {
  import opened DbFormat
  import opened Versions

  /** Saver::state, with the value that SaveValue copied. Corrupt keys are not modelled. */
  datatype SaverState = NotFound | Found(value: Value) | Deleted

  function SaveValue(e: Entry, user: UserKey): SaverState {
    if e.key.user != user then NotFound
    else if e.key.kind.TypeValue? then Found(e.value)
    else Deleted
  }

  /** What the search so far says about `user` at `snap`, given all entries `s` it covered. */
  ghost predicate Decides(state: SaverState, s: set<Entry>, user: UserKey, snap: SequenceNumber) {
    if state.NotFound? then Nothing(s, user, snap)
    else exists e :: Newest(s, user, snap, e) && state == SaveValue(e, user)
  }

  lemma DecidedRead(state: SaverState, s: set<Entry>, user: UserKey, snap: SequenceNumber)
    requires Decides(state, s, user, snap) && UniqueSequence(s)
    ensures Read(s, user, snap) == if state.Found? then Some(state.value) else None
  {
    if state.NotFound? {
      ReadOfNothing(s, user, snap);
    } else {
      var e :| Newest(s, user, snap, e) && state == SaveValue(e, user);
      ReadOfNewest(s, user, snap, e);
    }
  }

  // ---- Sorted runs of entries: one table, or one memtable

  /** Where a sorted run is positioned by Seek(key): the first entry at or after `key`. */
  function SeekIndex(es: seq<Entry>, key: InternalKey): (i: nat)
    requires Sorted(es)
    ensures i <= |es|
    ensures forall j :: 0 <= j < i ==> Less(es[j].key, key)
    ensures i < |es| ==> !Less(es[i].key, key)
  {
    if es == [] || !Less(es[0].key, key) then 0 else 1 + SeekIndex(es[1..], key)
  }

  function Elements(es: seq<Entry>): set<Entry> {
    set e | e in es
  }

  /** MemTable::Get and TableCache::Get: seek to the lookup key, then look at one entry. */
  function SeekAndSave(es: seq<Entry>, user: UserKey, snap: SequenceNumber): SaverState
    requires Sorted(es)
  {
    var i := SeekIndex(es, LookupKey(user, snap));
    if i < |es| then SaveValue(es[i], user) else NotFound
  }

  lemma OneSeekDecides(es: seq<Entry>, user: UserKey, snap: SequenceNumber)
    requires Sorted(es)
    ensures Decides(SeekAndSave(es, user, snap), Elements(es), user, snap)
  {
    var i := SeekIndex(es, LookupKey(user, snap));
    forall j | 0 <= j < |es| && es[j].key.user == user && es[j].key.sequence <= snap
      ensures i <= j && es[i].key.user == user && es[j].key.sequence <= es[i].key.sequence
    {
      assert !Less(es[j].key, LookupKey(user, snap));
      if i < j {
        assert Before(es[i].key, es[j].key);
      }
    }
    if i < |es| && es[i].key.user == user {
      assert Newest(Elements(es), user, snap, es[i]);
    } else {
      assert Nothing(Elements(es), user, snap);
    }
  }

  // ---- Levels

  /** FindFile: binary search for the first file whose largest key is at or after `key`. */
  method FindFile(files: seq<File>, key: InternalKey) returns (right: nat)
    requires AllWellFormed(files) && Disjoint(files)
    ensures right <= |files|
    ensures forall i :: 0 <= i < right ==> Less(files[i].largest, key)
    ensures forall i :: right <= i < |files| ==> !Less(files[i].largest, key)
  {
    var left := 0;
    right := |files|;
    while left < right
      invariant 0 <= left <= right <= |files|
      invariant forall i :: 0 <= i < left ==> Less(files[i].largest, key)
      invariant forall i :: right <= i < |files| ==> !Less(files[i].largest, key)
    {
      var mid := (left + right) / 2;
      LargestKeysAscend(files);
      if Less(files[mid].largest, key) {
        left := mid + 1;
      } else {
        right := mid;
      }
    }
  }

  lemma LargestKeysAscend(files: seq<File>)
    requires AllWellFormed(files) && Disjoint(files)
    ensures forall i, j :: 0 <= i < j < |files| ==> Less(files[i].largest, files[j].largest)
  {
    forall i, j | 0 <= i < j < |files|
      ensures Less(files[i].largest, files[j].largest)
    {
      var f := files[j];
      assert WellFormed(f);
      EntryWithinFile(f, f.entries[0]);
    }
  }

  ghost predicate NewestFirst(files: seq<File>) {
    forall i, j :: 0 <= i < j < |files| ==> files[i].number >= files[j].number
  }

  /** std::sort by NewestFirst, written as an insertion sort. */
  method SortNewestFirst(files: seq<File>) returns (r: seq<File>)
    ensures forall f :: f in r <==> f in files
    ensures NewestFirst(r)
  {
    r := [];
    for n := 0 to |files|
      invariant forall f :: f in r <==> f in files[..n]
      invariant NewestFirst(r)
    {
      var at := 0;
      while at < |r| && r[at].number >= files[n].number
        invariant 0 <= at <= |r|
        invariant forall i :: 0 <= i < at ==> r[i].number >= files[n].number
      {
        at := at + 1;
      }
      InsertedInOrder(r, at, files[n]);
      assert files[..n + 1] == files[..n] + [files[n]];
      r := r[..at] + [files[n]] + r[at..];
    }
    assert files[..|files|] == files;
  }

  lemma InsertedInOrder(r: seq<File>, at: nat, f: File)
    requires NewestFirst(r) && at <= |r|
    requires forall i :: 0 <= i < at ==> r[i].number >= f.number
    requires at < |r| ==> r[at].number < f.number
    ensures NewestFirst(r[..at] + [f] + r[at..])
    ensures forall g :: g in r[..at] + [f] + r[at..] <==> g in r || g == f
  {
    var s := r[..at] + [f] + r[at..];
    assert r == r[..at] + r[at..];
    forall i, j | 0 <= i < j < |s|
      ensures s[i].number >= s[j].number
    {
      assert i < at ==> s[i] == r[i];
      assert i > at ==> s[i] == r[i - 1];
      assert j < at ==> s[j] == r[j];
      assert j > at ==> s[j] == r[j - 1];
      assert at < j ==> r[at].number >= r[j - 1].number;
    }
  }

  /** Level 0 of ForEachOverlapping: the files whose range holds `user`, newest first. */
  method SearchLevel0(files: seq<File>, user: UserKey, snap: SequenceNumber) returns (state: SaverState)
    requires AllWellFormed(files) && NewestByNumber(files) && DistinctNumbers(files)
    ensures Decides(state, FileEntries(files), user, snap)
  {
    var tmp: seq<File> := [];
    for i := 0 to |files|
      invariant forall f :: f in tmp <==> f in files[..i] && f.smallest.user <= user <= f.largest.user
    {
      var f := files[i];
      if user >= f.smallest.user && user <= f.largest.user {
        tmp := tmp + [f];
      }
    }
    var sorted := SortNewestFirst(tmp);
    state := NotFound;
    for i := 0 to |sorted|
      invariant forall j :: 0 <= j < i ==> Nothing(Elements(sorted[j].entries), user, snap)
    {
      var f := sorted[i];
      assert WellFormed(f);
      state := SeekAndSave(f.entries, user, snap);
      OneSeekDecides(f.entries, user, snap);
      if !state.NotFound? {
        NewestHitInLevel0(files, sorted, i, user, snap, state);
        return;
      }
    }
    MissInLevel0(files, sorted, user, snap);
    state := NotFound;
  }

  ghost predicate Candidates(files: seq<File>, sorted: seq<File>, user: UserKey) {
    && (forall f :: f in sorted <==> f in files && f.smallest.user <= user <= f.largest.user)
    && NewestFirst(sorted)
  }

  lemma NewestHitInLevel0(files: seq<File>, sorted: seq<File>, i: nat, user: UserKey,
                          snap: SequenceNumber, state: SaverState)
    requires AllWellFormed(files) && NewestByNumber(files) && DistinctNumbers(files)
    requires Candidates(files, sorted, user) && i < |sorted| && !state.NotFound?
    requires forall j :: 0 <= j < i ==> Nothing(Elements(sorted[j].entries), user, snap)
    requires Decides(state, Elements(sorted[i].entries), user, snap)
    ensures Decides(state, FileEntries(files), user, snap)
  {
    var f := sorted[i];
    var e :| Newest(Elements(f.entries), user, snap, e) && state == SaveValue(e, user);
    forall x | x in FileEntries(files) && x.key.user == user && x.key.sequence <= snap
      ensures x.key.sequence <= e.key.sequence
    {
      var g :| g in files && x in g.entries;
      EntryWithinFile(g, x);
      var j :| 0 <= j < |sorted| && sorted[j] == g;
      assert x in Elements(g.entries);
      assert i <= j;
      if g.number == f.number {
        assert g == f;
      } else {
        assert NewerThan(f, g);
      }
    }
    assert f in files && e in f.entries;
    assert Newest(FileEntries(files), user, snap, e);
  }

  lemma MissInLevel0(files: seq<File>, sorted: seq<File>, user: UserKey, snap: SequenceNumber)
    requires AllWellFormed(files) && Candidates(files, sorted, user)
    requires forall j :: 0 <= j < |sorted| ==> Nothing(Elements(sorted[j].entries), user, snap)
    ensures Nothing(FileEntries(files), user, snap)
  {
    forall x | x in FileEntries(files) && x.key.user == user
      ensures x.key.sequence > snap
    {
      var g :| g in files && x in g.entries;
      EntryWithinFile(g, x);
      var j :| 0 <= j < |sorted| && sorted[j] == g;
      assert x in Elements(g.entries);
    }
  }

  /** A level above 0 of ForEachOverlapping: at most one file can decide. */
  method SearchSortedLevel(files: seq<File>, user: UserKey, snap: SequenceNumber) returns (state: SaverState)
    requires AllWellFormed(files) && Disjoint(files)
    ensures Decides(state, FileEntries(files), user, snap)
  {
    state := NotFound;
    var index := FindFile(files, LookupKey(user, snap));
    if index < |files| && user >= files[index].smallest.user {
      assert WellFormed(files[index]);
      state := SeekAndSave(files[index].entries, user, snap);
      OneSeekDecides(files[index].entries, user, snap);
    }
    OneFileDecides(files, index, user, snap, state);
  }

  lemma OneFileDecides(files: seq<File>, index: nat, user: UserKey, snap: SequenceNumber, state: SaverState)
    requires AllWellFormed(files) && Disjoint(files) && index <= |files|
    requires forall i :: 0 <= i < index ==> Less(files[i].largest, LookupKey(user, snap))
    requires index < |files| ==> !Less(files[index].largest, LookupKey(user, snap))
    requires if index < |files| && user >= files[index].smallest.user
             then Decides(state, Elements(files[index].entries), user, snap)
             else state.NotFound?
    ensures Decides(state, FileEntries(files), user, snap)
  {
    forall i, x | 0 <= i < |files| && x in files[i].entries && x.key.user == user && x.key.sequence <= snap
      ensures i >= index
      ensures i > index ==> files[index].largest.user == user && files[index].smallest.user <= user
      ensures i == index ==> files[index].smallest.user <= user
    {
      EntryWithinFile(files[i], x);
      if i > index {
        assert Before(files[index].largest, files[i].smallest);
        var f := files[index];
        assert WellFormed(f);
        EntryWithinFile(f, f.entries[0]);
      }
    }
    if state.NotFound? {
      forall x | x in FileEntries(files) && x.key.user == user
        ensures x.key.sequence > snap
      {
        var g :| g in files && x in g.entries;
        var i :| 0 <= i < |files| && files[i] == g;
        if x.key.sequence <= snap {
          NothingHidesBehind(files, index, i, x, user, snap);
        }
      }
    } else {
      var f := files[index];
      var e :| Newest(Elements(f.entries), user, snap, e) && state == SaveValue(e, user);
      forall x | x in FileEntries(files) && x.key.user == user && x.key.sequence <= snap
        ensures x.key.sequence <= e.key.sequence
      {
        var g :| g in files && x in g.entries;
        var i :| 0 <= i < |files| && files[i] == g;
        if i == index {
          assert x in Elements(f.entries);
        } else {
          EarlierFileIsNewer(files, index, i);
        }
      }
      assert e in f.entries && f in files;
      assert Newest(FileEntries(files), user, snap, e);
    }
  }

  /** If a later file holds a visible entry of `user`, so does the file the search stops at. */
  lemma NothingHidesBehind(files: seq<File>, index: nat, i: nat, x: Entry, user: UserKey, snap: SequenceNumber)
    requires AllWellFormed(files) && Disjoint(files) && index <= i < |files|
    requires !Less(files[index].largest, LookupKey(user, snap))
    requires x in files[i].entries && x.key.user == user && x.key.sequence <= snap
    ensures !Nothing(Elements(files[index].entries), user, snap)
  {
    var f := files[index];
    assert WellFormed(f);
    if i == index {
      assert x in Elements(f.entries);
    } else {
      EntryWithinFile(files[i], x);
      assert Before(f.largest, files[i].smallest);
      var last := f.entries[|f.entries| - 1];
      assert last in Elements(f.entries) && last.key == f.largest;
    }
  }

  // ---- Whole versions

  /** Version::Get. Read statistics and file errors are left out. */
  method VersionGet(v: Version, user: UserKey, snap: SequenceNumber) returns (state: SaverState)
    requires VersionOK(v)
    ensures Decides(state, VersionEntries(v), user, snap)
  {
    state := SearchLevel0(v[0], user, snap);
    var level := 1;
    while state.NotFound? && level < NUM_LEVELS
      invariant 1 <= level <= NUM_LEVELS
      invariant Decides(state, FileEntries(v[level - 1]), user, snap)
      invariant forall l :: 0 <= l < level - 1 ==> Nothing(FileEntries(v[l]), user, snap)
    {
      state := SearchSortedLevel(v[level], user, snap);
      level := level + 1;
    }
    FirstHitDecides(v, level - 1, user, snap, state);
  }

  lemma FirstHitDecides(v: Version, level: nat, user: UserKey, snap: SequenceNumber, state: SaverState)
    requires VersionOK(v) && level < NUM_LEVELS
    requires Decides(state, FileEntries(v[level]), user, snap)
    requires forall l :: 0 <= l < level ==> Nothing(FileEntries(v[l]), user, snap)
    requires state.NotFound? ==> level == NUM_LEVELS - 1
    ensures Decides(state, VersionEntries(v), user, snap)
  {
    forall x | x in VersionEntries(v) && x.key.user == user && x.key.sequence <= snap
      ensures exists m :: level <= m < |v| && StoredAt(v, m, x)
    {
      StoredSomewhere(v, x);
      var m :| 0 <= m < |v| && StoredAt(v, m, x);
      assert x in FileEntries(v[m]);
    }
    if state.NotFound? {
      forall x | StoredAt(v, level, x) && x.key.user == user
        ensures x.key.sequence > snap
      {
        assert x in FileEntries(v[level]);
      }
    } else {
      var e :| Newest(FileEntries(v[level]), user, snap, e) && state == SaveValue(e, user);
      assert StoredAt(v, level, e);
      StoredSomewhere(v, e);
      forall x | x in VersionEntries(v) && x.key.user == user && x.key.sequence <= snap
        ensures x.key.sequence <= e.key.sequence
      {
        var m :| level <= m < |v| && StoredAt(v, m, x);
        if m == level {
          assert x in FileEntries(v[level]);
        } else {
          LowerLevelIsNewer(v, level, e, m, x);
        }
      }
      assert Newest(VersionEntries(v), user, snap, e);
    }
  }

  lemma LowerLevelIsNewer(v: Version, l: nat, e: Entry, m: nat, x: Entry)
    requires LevelsByAge(v) && l < m < |v| && StoredAt(v, l, e) && StoredAt(v, m, x)
    requires e.key.user == x.key.user
    ensures e.key.sequence > x.key.sequence
  {
    var f :| f in v[l] && e in f.entries;
    var g :| g in v[m] && x in g.entries;
    assert NewerThan(f, g);
  }

  // ---- The whole store

  /** All entries of `a` for a user key are newer than those of `b`. */
  ghost predicate EntriesNewer(a: set<Entry>, b: set<Entry>) {
    forall x, y :: x in a && y in b && x.key.user == y.key.user ==> x.key.sequence > y.key.sequence
  }

  /** DBImpl::Get: the memtable, then the immutable memtable, then the current version. */
  method Get(mem: seq<Entry>, imm: Option<seq<Entry>>, current: Version, user: UserKey, snap: SequenceNumber)
    returns (r: Option<Value>)
    requires Sorted(mem) && (imm.Some? ==> Sorted(imm.value)) && VersionOK(current)
    requires EntriesNewer(Elements(mem), ImmEntries(imm) + VersionEntries(current))
    requires EntriesNewer(ImmEntries(imm), VersionEntries(current))
    ensures r == Read(Elements(mem) + ImmEntries(imm) + VersionEntries(current), user, snap)
  {
    var state := SeekAndSave(mem, user, snap);
    OneSeekDecides(mem, user, snap);
    ghost var covered := Elements(mem);
    if state.NotFound? && imm.Some? {
      state := SeekAndSave(imm.value, user, snap);
      OneSeekDecides(imm.value, user, snap);
      NextPartDecides(covered, ImmEntries(imm), user, snap, state);
    }
    covered := covered + ImmEntries(imm);
    ghost var all := covered + VersionEntries(current);
    if state.NotFound? {
      state := VersionGet(current, user, snap);
      NextPartDecides(covered, VersionEntries(current), user, snap, state);
    } else {
      EarlierPartDecides(Elements(mem), ImmEntries(imm), VersionEntries(current), user, snap, state);
    }
    StoreIsUnique(mem, imm, current);
    DecidedRead(state, all, user, snap);
    r := if state.Found? then Some(state.value) else None;
  }

  ghost function ImmEntries(imm: Option<seq<Entry>>): set<Entry> {
    if imm.Some? then Elements(imm.value) else {}
  }

  lemma NextPartDecides(a: set<Entry>, b: set<Entry>, user: UserKey, snap: SequenceNumber, state: SaverState)
    requires Nothing(a, user, snap) && Decides(state, b, user, snap)
    ensures Decides(state, a + b, user, snap)
  {
    if !state.NotFound? {
      var e :| Newest(b, user, snap, e) && state == SaveValue(e, user);
      assert Newest(a + b, user, snap, e);
    }
  }

  lemma EarlierPartDecides(a: set<Entry>, b: set<Entry>, c: set<Entry>, user: UserKey, snap: SequenceNumber,
                           state: SaverState)
    requires !state.NotFound? && EntriesNewer(a, b + c) && EntriesNewer(b, c)
    requires Decides(state, a, user, snap) || Decides(state, a + b, user, snap)
    ensures Decides(state, a + b + c, user, snap)
  {
    if Decides(state, a, user, snap) {
      var e :| Newest(a, user, snap, e) && state == SaveValue(e, user);
      forall x | x in b + c && x.key.user == user
        ensures x.key.sequence <= e.key.sequence
      {
      }
      assert Newest(a + b + c, user, snap, e);
    } else {
      var e :| Newest(a + b, user, snap, e) && state == SaveValue(e, user);
      assert Newest(a + b + c, user, snap, e);
    }
  }

  lemma StoreIsUnique(mem: seq<Entry>, imm: Option<seq<Entry>>, current: Version)
    requires Sorted(mem) && (imm.Some? ==> Sorted(imm.value)) && VersionOK(current)
    requires EntriesNewer(Elements(mem), ImmEntries(imm) + VersionEntries(current))
    requires EntriesNewer(ImmEntries(imm), VersionEntries(current))
    ensures UniqueSequence(Elements(mem) + ImmEntries(imm) + VersionEntries(current))
  {
    RunIsUnique(mem);
    if imm.Some? {
      RunIsUnique(imm.value);
    }
    VersionIsUnique(current);
    UniqueUnion(ImmEntries(imm), VersionEntries(current));
    UniqueUnion(Elements(mem), ImmEntries(imm) + VersionEntries(current));
    assert Elements(mem) + (ImmEntries(imm) + VersionEntries(current))
        == Elements(mem) + ImmEntries(imm) + VersionEntries(current);
  }

  lemma RunIsUnique(es: seq<Entry>)
    requires Sorted(es)
    ensures UniqueSequence(Elements(es))
  {
    forall x, y | x in es && y in es && x.key.user == y.key.user && x.key.sequence == y.key.sequence
      ensures x == y
    {
      var i :| 0 <= i < |es| && es[i] == x;
      var j :| 0 <= j < |es| && es[j] == y;
      assert !(i < j) && !(j < i);
    }
  }

  lemma UniqueUnion(a: set<Entry>, b: set<Entry>)
    requires UniqueSequence(a) && UniqueSequence(b) && EntriesNewer(a, b)
    ensures UniqueSequence(a + b)
  {
  }
}
