/** Table files, versions, and what every version the store can reach looks like
    (db/version_set.h, db/version_edit.h). */
module Versions {
  import opened DbFormat

  /** FileMetaData, with the entries of the table that `number` names. */
  datatype File = File(number: nat, size: nat, smallest: InternalKey, largest: InternalKey,
                       entries: seq<Entry>)

  /** Version::files_: the files of each level. */
  type Version = seq<seq<File>>

  ghost predicate WellFormed(f: File) {
    && |f.entries| > 0 && Sorted(f.entries)
    && f.smallest == f.entries[0].key
    && f.largest == f.entries[|f.entries| - 1].key
  }

  /** Wherever both files hold a user key, `f` holds the newer entries. */
  ghost predicate NewerThan(f: File, g: File) {
    forall e, x :: e in f.entries && x in g.entries && e.key.user == x.key.user
      ==> e.key.sequence > x.key.sequence
  }

  /** The order of the files of a level above 0. */
  ghost predicate Disjoint(files: seq<File>) {
    forall i, j :: 0 <= i < j < |files| ==> Before(files[i].largest, files[j].smallest)
  }

  ghost predicate AllWellFormed(files: seq<File>) {
    forall f :: f in files ==> WellFormed(f)
  }

  /** Files of level 0 may overlap; the one with the larger number is newer. */
  ghost predicate NewestByNumber(files: seq<File>) {
    forall f, g :: f in files && g in files && f.number > g.number ==> NewerThan(f, g)
  }

  ghost predicate DistinctNumbers(files: seq<File>) {
    forall i, j :: 0 <= i < j < |files| ==> files[i].number != files[j].number
  }

  /** Lower levels hold newer entries. */
  ghost predicate LevelsByAge(v: Version) {
    forall l, m, f, g :: 0 <= l < m < |v| && f in v[l] && g in v[m] ==> NewerThan(f, g)
  }

  /** The invariant of every installed version. */
  ghost predicate VersionOK(v: Version) {
    && |v| == NUM_LEVELS
    && (forall l :: 0 <= l < NUM_LEVELS ==> AllWellFormed(v[l]))
    && (forall l :: 1 <= l < NUM_LEVELS ==> Disjoint(v[l]))
    && NewestByNumber(v[0]) && DistinctNumbers(v[0])
    && LevelsByAge(v)
  }

  // ---- The entries of files, levels and versions

  ghost function FileEntries(files: seq<File>): set<Entry> {
    set f, e | f in files && e in f.entries :: e
  }

  lemma EntriesOfOne(f: File)
    ensures FileEntries([f]) == set e | e in f.entries
  {
    assert f in [f];
  }

  lemma EntriesOfTwo(f: File, g: File)
    ensures FileEntries([f, g]) == (set e | e in f.entries) + (set e | e in g.entries)
  {
    assert f in [f, g] && g in [f, g];
  }

  ghost function EntriesFrom(v: Version, level: nat): set<Entry>
    requires level <= |v|
    decreases |v| - level
  {
    if level == |v| then {} else FileEntries(v[level]) + EntriesFrom(v, level + 1)
  }

  ghost function VersionEntries(v: Version): set<Entry> {
    EntriesFrom(v, 0)
  }

  lemma {:induction false} EntriesFromMember(v: Version, level: nat, e: Entry)
    requires level <= |v|
    ensures e in EntriesFrom(v, level) <==> exists l, f :: level <= l < |v| && f in v[l] && e in f.entries
    decreases |v| - level
  {
    if level < |v| {
      EntriesFromMember(v, level + 1, e);
      if e in FileEntries(v[level]) {
        var f :| f in v[level] && e in f.entries;
      }
    }
  }

  /** `e` is stored at `level`. */
  ghost predicate StoredAt(v: Version, level: nat, e: Entry)
    requires level < |v|
  {
    exists f :: f in v[level] && e in f.entries
  }

  lemma StoredSomewhere(v: Version, e: Entry)
    ensures e in VersionEntries(v) <==> exists l :: 0 <= l < |v| && StoredAt(v, l, e)
  {
    EntriesFromMember(v, 0, e);
    if e in VersionEntries(v) {
      var l, f :| 0 <= l < |v| && f in v[l] && e in f.entries;
      assert StoredAt(v, l, e);
    }
    if l :| 0 <= l < |v| && StoredAt(v, l, e) {
      var f :| f in v[l] && e in f.entries;
    }
  }

  // ---- Facts about one file

  lemma EntryWithinFile(f: File, e: Entry)
    requires WellFormed(f) && e in f.entries
    ensures f.smallest == e.key || Before(f.smallest, e.key)
    ensures f.largest == e.key || Before(e.key, f.largest)
    ensures f.smallest.user <= e.key.user <= f.largest.user
  {
    var i :| 0 <= i < |f.entries| && f.entries[i] == e;
  }

  /** In a level above 0, an earlier file's entries of a user key are the newer ones. */
  lemma EarlierFileIsNewer(files: seq<File>, i: nat, j: nat)
    requires AllWellFormed(files) && Disjoint(files) && i < j < |files|
    ensures NewerThan(files[i], files[j])
  {
    forall e, x | e in files[i].entries && x in files[j].entries && e.key.user == x.key.user
      ensures e.key.sequence > x.key.sequence
    {
      EntryWithinFile(files[i], e);
      EntryWithinFile(files[j], x);
    }
  }

  /** Two entries of a version with the same user key and sequence number are the same. */
  lemma VersionIsUnique(v: Version)
    requires VersionOK(v)
    ensures UniqueSequence(VersionEntries(v))
  {
    var s := VersionEntries(v);
    forall x, y | x in s && y in s && x.key.user == y.key.user && x.key.sequence == y.key.sequence
      ensures x == y
    {
      StoredSomewhere(v, x);
      StoredSomewhere(v, y);
      var l :| 0 <= l < |v| && StoredAt(v, l, x);
      var m :| 0 <= m < |v| && StoredAt(v, m, y);
      var f :| f in v[l] && x in f.entries;
      var g :| g in v[m] && y in g.entries;
      UniqueAcrossFiles(v, l, f, x, m, g, y);
    }
  }

  lemma UniqueAcrossFiles(v: Version, l: nat, f: File, x: Entry, m: nat, g: File, y: Entry)
    requires VersionOK(v) && l < |v| && m < |v|
    requires f in v[l] && x in f.entries && g in v[m] && y in g.entries
    requires x.key.user == y.key.user
    ensures x.key.sequence == y.key.sequence ==> x == y
  {
    if l < m {
      assert NewerThan(f, g);
    } else if m < l {
      assert NewerThan(g, f);
    } else {
      var i :| 0 <= i < |v[l]| && v[l][i] == f;
      var j :| 0 <= j < |v[l]| && v[l][j] == g;
      if i == j {
        assert WellFormed(f);
        var p :| 0 <= p < |f.entries| && f.entries[p] == x;
        var q :| 0 <= q < |f.entries| && f.entries[q] == y;
        assert p < q || q < p || x == y;
      } else if l == 0 {
        assert f.number != g.number;
        assert NewerThan(f, g) || NewerThan(g, f);
      } else if i < j {
        EarlierFileIsNewer(v[l], i, j);
      } else {
        EarlierFileIsNewer(v[l], j, i);
      }
    }
  }

  // ---- Facts about reads

  /** The newest visible entry decides the read. */
  lemma ReadOfNewest(s: set<Entry>, user: UserKey, snap: SequenceNumber, e: Entry)
    requires UniqueSequence(s) && Newest(s, user, snap, e)
    ensures Read(s, user, snap) == Meaning(e)
  {
    forall x | Newest(s, user, snap, x)
      ensures x == e
    {
    }
  }

  lemma ReadOfNothing(s: set<Entry>, user: UserKey, snap: SequenceNumber)
    requires Nothing(s, user, snap)
    ensures Read(s, user, snap) == None
  {
  }

  /** A reader sees nothing or a newest entry. */
  lemma {:induction false} NothingOrNewest(s: set<Entry>, user: UserKey, snap: SequenceNumber)
    ensures Nothing(s, user, snap) || exists e :: Newest(s, user, snap, e)
    decreases s
  {
    if x :| x in s && x.key.user == user && x.key.sequence <= snap {
      var rest := s - {x};
      NothingOrNewest(rest, user, snap);
      if e :| Newest(rest, user, snap, e) {
        assert s == rest + {x};
        assert Newest(s, user, snap, if x.key.sequence <= e.key.sequence then e else x);
      } else {
        assert Newest(s, user, snap, x);
      }
    }
  }
}
