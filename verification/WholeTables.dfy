/** A whole table: byte-wise keys with short separators, data blocks, an index and Bloom filters
    (table/table_builder.cc, table/table.cc). */
module WholeTables {
  import opened Bytes
  import opened DbFormat
  import opened Lookup
  import BlockReader
  import S = Separators
  import FilterBlock
  import Bloom
  import opened TableLookup

  type Str = seq<byte>

  // ---- Byte strings in the order of the comparator, as user keys

  /** The digits of a byte string behind the point, in base 257 and from 1 on. */
  function Rank(s: Str): (r: UserKey)
    ensures 0.0 <= r < 1.0
  {
    if s == [] then 0.0 else (s[0] as real + 1.0 + Rank(s[1..])) / 257.0
  }

  lemma {:induction false} RankAscends(a: Str, b: Str)
    requires S.Less(a, b)
    ensures Rank(a) < Rank(b)
  {
    if a != [] && a[0] == b[0] {
      RankAscends(a[1..], b[1..]);
    }
  }

  /** Ranks order as the byte strings do, and tell them apart. */
  lemma RankOrders(a: Str, b: Str)
    ensures S.Less(a, b) <==> Rank(a) < Rank(b)
    ensures a == b <==> Rank(a) == Rank(b)
  {
    S.LessTotal(a, b);
    if S.Less(a, b) {
      RankAscends(a, b);
    } else if S.Less(b, a) {
      RankAscends(b, a);
    }
  }

  // ---- Rows

  datatype Row = Row(user: Str, sequence: SequenceNumber, kind: ValueType, value: Value)

  function PackedTag(sequence: SequenceNumber, kind: ValueType): nat {
    sequence * 256 + if kind.TypeValue? then 1 else 0
  }

  function BytesKey(row: Row): S.Internal {
    S.Internal(row.user, PackedTag(row.sequence, row.kind))
  }

  function KeyOf(k: S.Internal): InternalKey {
    InternalKey(Rank(k.user), k.tag / 256, if k.tag % 256 == 1 then TypeValue else TypeDeletion)
  }

  function EntryOf(row: Row): Entry {
    Entry(InternalKey(Rank(row.user), row.sequence, row.kind), row.value)
  }

  function EntriesOf(rows: seq<Row>): seq<Entry> {
    seq(|rows|, i requires 0 <= i < |rows| => EntryOf(rows[i]))
  }

  /** The order in which a table is filled. */
  predicate RowBefore(a: Row, b: Row) {
    S.Less(a.user, b.user) || (a.user == b.user && a.sequence > b.sequence)
  }

  lemma KeyOfRow(row: Row)
    ensures KeyOf(BytesKey(row)) == EntryOf(row).key
  {
  }

  lemma RowsAscend(a: Row, b: Row)
    requires RowBefore(a, b)
    ensures Before(EntryOf(a).key, EntryOf(b).key)
  {
    RankOrders(a.user, b.user);
  }

  // ---- Building

  /** The finished table: blocks, index and filter block. */
  datatype WholeTable = WholeTable(blocks: seq<seq<Entry>>, index: seq<IndexEntry>, filter: Str)

  /** The table as a lookup of `key` sees it: the filter block is asked about these bytes. */
  function For(t: WholeTable, policy: FilterBlock.Policy, key: Str): Table {
    var reader := FilterBlock.OpenReader(t.filter);
    Table(t.blocks, t.index, (offset: nat, user: UserKey) => user == Rank(key) ==> FilterBlock.KeyMayMatch(policy, reader, offset, key))
  }

  /** The table holds the rows, and lookups in it are right as long as its filter block is below 4 GB. */
  ghost predicate TableOf(t: WholeTable, policy: FilterBlock.Policy, rows: seq<Row>) {
    && Flatten(t.blocks) == EntriesOf(rows)
    && (|t.filter| < BlockReader.LIMIT ==> forall key: Str :: TableOK(For(t, policy, key)))
  }

  /** Every key of the index side was given to the filter for the same block. */
  ghost predicate SameKeys(filtered: set<(nat, UserKey)>, placed: seq<(nat, Str)>) {
    forall offset, user :: (offset, user) in filtered ==> Placed(placed, offset, user)
  }

  ghost predicate Placed(placed: seq<(nat, Str)>, offset: nat, user: UserKey) {
    exists key :: (offset, key) in placed && Rank(key) == user
  }

  class Builder {
    const policy: FilterBlock.Policy
    const table: TableBuilder
    const filter: FilterBlock.FilterBlockBuilder
    var lastKey: S.Internal
    ghost var rows: seq<Row>

    ghost predicate Valid()
      reads this, table, filter
    {
      && table.Valid() && filter.Valid() && filter.policy == policy && filter.at == table.offset
      && table.entries == EntriesOf(rows) && SameKeys(table.filtered, filter.placed)
      && (rows != [] ==> lastKey == BytesKey(rows[|rows| - 1]))
    }

    constructor (policy: FilterBlock.Policy)
      ensures Valid() && rows == [] && this.policy == policy && fresh(table) && fresh(filter)
    {
      this.policy, lastKey, rows := policy, S.Internal([], 0), [];
      table := new TableBuilder();
      filter := new FilterBlock.FilterBlockBuilder(policy);
      new;
      filter.StartBlock(0);
    }

    /** A short key between the last one and the next, for the index. */
    method Separator(row: Row) returns (r: InternalKey)
      requires Valid() && rows != []
      ensures IndexedBy(r, table.lastKey, Some(EntryOf(row).key))
    {
      var k := S.FindShortestInternalSeparator(lastKey, BytesKey(row));
      KeyOfRow(rows[|rows| - 1]);
      RankOrders(lastKey.user, k.user);
      RankOrders(k.user, row.user);
      r := KeyOf(k);
    }

    method Successor() returns (r: InternalKey)
      requires Valid() && rows != []
      ensures IndexedBy(r, table.entries[|table.entries| - 1].key, None)
    {
      var k := S.FindShortInternalSuccessor(lastKey);
      KeyOfRow(rows[|rows| - 1]);
      RankOrders(lastKey.user, k.user);
      r := KeyOf(k);
    }

    /** TableBuilder::Add. */
    method Add(row: Row, full: bool, size: nat)
      requires Valid() && (rows != [] ==> RowBefore(rows[|rows| - 1], row))
      modifies this, table, filter
      ensures Valid() && rows == old(rows) + [row]
    {
      hide RowBefore, IndexedBy, Before, TableBuilder.Valid, FilterBlock.FilterBlockBuilder.Valid;
      var separator := EntryOf(row).key;
      if table.pendingIndexEntry {
        table.EndOfBlocks();
        separator := Separator(row);
      }
      if rows != [] {
        RowsAscend(rows[|rows| - 1], row);
      }
      filter.AddKey(row.user);
      MoreKeys(table.filtered, old(filter.placed), table.offset, row.user);
      lastKey := BytesKey(row);
      rows := rows + [row];
      assert EntriesOf(rows) == EntriesOf(old(rows)) + [EntryOf(row)];
      table.Add(EntryOf(row), separator, full, size);
      filter.StartBlock(table.offset);
    }

    /** TableBuilder::Finish. */
    method Finish(size: nat) returns (t: WholeTable)
      requires Valid() && FilterBlock.PolicyOK(policy)
      modifies this, table, filter
      ensures TableOf(t, policy, old(rows))
    {
      var successor := InternalKey(0.0, 0, TypeValue);
      if table.dataBlock != [] || table.pendingIndexEntry {
        if table.pendingIndexEntry {
          table.EndOfBlocks();
        }
        successor := Successor();
      }
      var blocks, index := table.Finish(successor, size);
      filter.StartBlock(table.offset);
      var contents := filter.Finish();
      t := WholeTable(blocks, index, contents);
      if |contents| < BlockReader.LIMIT {
        forall key: Str
          ensures TableOK(For(t, policy, key))
        {
          forall o, u | (o, u) in table.filtered
            ensures For(t, policy, key).mayMatch(o, u)
          {
            assert Placed(filter.placed, o, u);
            var k :| (o, k) in filter.placed && Rank(k) == u;
            RankOrders(k, key);
            FilterBlock.NeverMisses(policy, filter.groups, o, k);
          }
        }
      }
    }
  }

  lemma MoreKeys(filtered: set<(nat, UserKey)>, placed: seq<(nat, Str)>, offset: nat, key: Str)
    requires SameKeys(filtered, placed)
    ensures SameKeys(filtered + {(offset, Rank(key))}, placed + [(offset, key)])
  {
    forall o, u | (o, u) in filtered + {(offset, Rank(key))}
      ensures Placed(placed + [(offset, key)], o, u)
    {
      if (o, u) in filtered {
        assert Placed(placed, o, u);
        var k :| (o, k) in placed && Rank(k) == u;
        assert (o, k) in placed + [(offset, key)];
      } else {
        assert (offset, key) in placed + [(offset, key)];
      }
    }
  }

  // ---- Looking up

  /** Table::InternalGet on bytes: the newest entry of the key at or below the snapshot, if there is one. */
  method Get(t: WholeTable, policy: FilterBlock.Policy, key: Str, snap: SequenceNumber, ghost rows: seq<Row>)
    returns (state: SaverState)
    requires TableOf(t, policy, rows) && |t.filter| < BlockReader.LIMIT
    ensures Decides(state, Elements(EntriesOf(rows)), Rank(key), snap)
  {
    state := InternalGet(For(t, policy, key), Rank(key), snap);
  }

  /** A table written with Bloom filters, wherever its blocks end, and read at once. */
  method BuildWithBloom(hash: Bloom.Hash, bitsPerKey: nat, k: byte, rows: seq<Row>, full: seq<bool>, sizes: seq<nat>)
    returns (t: WholeTable)
    requires forall i :: 0 < i < |rows| ==> RowBefore(rows[i - 1], rows[i])
    requires |full| == |rows| && |sizes| == |rows| + 1
    ensures TableOf(t, Bloom.Policy(hash, bitsPerKey, k), rows)
  {
    hide Bloom.Policy, RowBefore, Builder.Valid, FilterBlock.PolicyOK;
    var policy := Bloom.Policy(hash, bitsPerKey, k);
    Bloom.PolicyIsOK(hash, bitsPerKey, k);
    var builder := new Builder(policy);
    for i := 0 to |rows|
      invariant builder.Valid() && builder.policy == policy && builder.rows == rows[..i]
      invariant fresh(builder) && fresh(builder.table) && fresh(builder.filter)
    {
      builder.Add(rows[i], full[i], sizes[i]);
      assert rows[..i + 1] == rows[..i] + [rows[i]];
    }
    assert rows[..|rows|] == rows;
    t := builder.Finish(sizes[|rows|]);
  }
}
