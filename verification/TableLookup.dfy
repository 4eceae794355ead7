/** Building a table and looking a key up in it: index separators and filters never hide an entry
    (table/table_builder.cc, table/table.cc). Blocks are their entries, as module BlockIter reads them;
    module WholeTables supplies the separators and the filter. */
module TableLookup {
  import opened Concatenation
  import opened DbFormat
  import opened Versions
  import opened Lookup
  import opened TwoLevel

  /** An entry of the index block: a key at or after the block's last, and the block's offset. */
  datatype IndexEntry = IndexEntry(key: InternalKey, offset: nat)

  /** A table: its data blocks, their index, and which user keys the filter may hold at an offset. */
  datatype Table = Table(blocks: seq<seq<Entry>>, index: seq<IndexEntry>, mayMatch: (nat, UserKey) -> bool)

  function LastKey(block: seq<Entry>): InternalKey
    requires block != []
  {
    block[|block| - 1].key
  }

  /** A block is indexed by its last key, or by a user key between it and the next block. */
  ghost predicate IndexedBy(key: InternalKey, last: InternalKey, next: Option<InternalKey>) {
    key == last || (last.user < key.user && (next.Some? ==> key.user < next.value.user))
  }

  function FirstKey(block: seq<Entry>): Option<InternalKey> {
    if block == [] then None else Some(block[0].key)
  }

  ghost predicate Indexed(blocks: seq<seq<Entry>>, index: seq<IndexEntry>, b: nat)
    requires b < |blocks| && b < |index|
  {
    blocks[b] != [] && IndexedBy(index[b].key, LastKey(blocks[b]), if b + 1 < |blocks| then FirstKey(blocks[b + 1]) else None)
  }

  /** The filter never misses a key of the block at the offset. */
  ghost predicate FilterOK(t: Table) {
    forall b, e :: 0 <= b < |t.blocks| && b < |t.index| && e in t.blocks[b] ==> t.mayMatch(t.index[b].offset, e.key.user)
  }

  ghost predicate TableOK(t: Table) {
    && |t.index| == |t.blocks| && Sorted(Flatten(t.blocks)) && FilterOK(t)
    && forall b: nat :: b < |t.blocks| ==> Indexed(t.blocks, t.index, b)
  }

  // ---- Looking up

  function KeyEntries(index: seq<IndexEntry>): (r: seq<Entry>)
    ensures |r| == |index| && forall b :: 0 <= b < |index| ==> r[b].key == index[b].key
  {
    seq(|index|, b requires 0 <= b < |index| => Entry(index[b].key, ""))
  }

  /** Entries of a sorted table stand in the order of their blocks. */
  lemma InBlockOrder(blocks: seq<seq<Entry>>, a: nat, p: nat, b: nat, q: nat)
    requires Sorted(Flatten(blocks)) && a < |blocks| && b < |blocks| && p < |blocks[a]| && q < |blocks[b]|
    ensures a < b || (a == b && p < q) ==> Before(blocks[a][p].key, blocks[b][q].key)
  {
    EntryAt(blocks, a, p);
    EntryAt(blocks, b, q);
    if a < b {
      OffsetNext(blocks, a);
      OffsetsAscend(blocks, a + 1, b);
    }
  }

  lemma BlockSorted(blocks: seq<seq<Entry>>, b: nat)
    requires Sorted(Flatten(blocks)) && b < |blocks|
    ensures Sorted(blocks[b])
  {
    forall p, q | 0 <= p < q < |blocks[b]|
      ensures Before(blocks[b][p].key, blocks[b][q].key)
    {
      InBlockOrder(blocks, b, p, b, q);
    }
  }

  /** No key of a block is above its index key. */
  lemma BelowIndexKey(t: Table, b: nat, p: nat)
    requires TableOK(t) && b < |t.blocks| && p < |t.blocks[b]|
    ensures t.blocks[b][p].key == t.index[b].key || Before(t.blocks[b][p].key, t.index[b].key)
  {
    assert Indexed(t.blocks, t.index, b);
    InBlockOrder(t.blocks, b, p, b, |t.blocks[b]| - 1);
  }

  /** The index key is before every key of the later blocks. */
  lemma AboveIndexKey(t: Table, a: nat, b: nat, q: nat)
    requires TableOK(t) && a < b < |t.blocks| && q < |t.blocks[b]|
    ensures Before(t.index[a].key, t.blocks[b][q].key)
  {
    assert Indexed(t.blocks, t.index, a) && Indexed(t.blocks, t.index, a + 1);
    InBlockOrder(t.blocks, a, |t.blocks[a]| - 1, b, q);
    InBlockOrder(t.blocks, a + 1, 0, b, q);
  }

  lemma IndexSeparates(t: Table)
    requires TableOK(t)
    ensures Sorted(KeyEntries(t.index)) && Separates(KeyEntries(t.index), t.blocks)
    ensures forall b :: 0 <= b < |t.blocks| ==> Sorted(t.blocks[b])
  {
    forall a, b | 0 <= a < b < |t.index|
      ensures Before(t.index[a].key, t.index[b].key)
    {
      assert Indexed(t.blocks, t.index, b);
      AboveIndexKey(t, a, b, 0);
      BelowIndexKey(t, b, 0);
    }
    forall b, e | 0 <= b < |t.blocks| && e in t.blocks[b]
      ensures !Less(t.index[b].key, e.key)
    {
      var p :| 0 <= p < |t.blocks[b]| && t.blocks[b][p] == e;
      BelowIndexKey(t, b, p);
    }
    forall a, b, e | 0 <= a < b < |t.blocks| && e in t.blocks[b]
      ensures Less(t.index[a].key, e.key)
    {
      var q :| 0 <= q < |t.blocks[b]| && t.blocks[b][q] == e;
      AboveIndexKey(t, a, b, q);
    }
    forall b: nat | b < |t.blocks|
      ensures Sorted(t.blocks[b])
    {
      BlockSorted(t.blocks, b);
    }
  }

  /** Table::InternalGet with the SaveValue of TableCache::Get: what seeking in the whole table gives. */
  method InternalGet(t: Table, user: UserKey, snap: SequenceNumber) returns (state: SaverState)
    requires TableOK(t)
    ensures state == SeekAndSave(Flatten(t.blocks), user, snap)
    ensures Decides(state, Elements(Flatten(t.blocks)), user, snap)
  {
    var k := LookupKey(user, snap);
    IndexSeparates(t);
    SeekInBlock(KeyEntries(t.index), t.blocks, k);
    OneSeekDecides(Flatten(t.blocks), user, snap);
    var b := SeekIndex(KeyEntries(t.index), k);
    state := NotFound;
    if b < |t.index| {
      SoughtInBlock(t, b, user, snap);
      if t.mayMatch(t.index[b].offset, user) {
        var i := SeekIndex(t.blocks[b], k);
        if i < |t.blocks[b]| {
          state := SaveValue(t.blocks[b][i], user);
        }
      }
    }
  }

  /** What the chosen block decides is what the whole table decides. */
  lemma SoughtInBlock(t: Table, b: nat, user: UserKey, snap: SequenceNumber)
    requires TableOK(t) && b < |t.blocks| && Sorted(t.blocks[b])
    requires !Less(t.index[b].key, LookupKey(user, snap))
    requires SeekIndex(Flatten(t.blocks), LookupKey(user, snap)) == Offset(t.blocks, b) + SeekIndex(t.blocks[b], LookupKey(user, snap))
    ensures var i := SeekIndex(t.blocks[b], LookupKey(user, snap));
      SeekAndSave(Flatten(t.blocks), user, snap)
        == if t.mayMatch(t.index[b].offset, user) && i < |t.blocks[b]| then SaveValue(t.blocks[b][i], user) else NotFound
  {
    var k, all := LookupKey(user, snap), Flatten(t.blocks);
    var i, at := SeekIndex(t.blocks[b], k), SeekIndex(all, k);
    if i < |t.blocks[b]| {
      EntryAt(t.blocks, b, i);
      assert t.blocks[b][i] in t.blocks[b];
    } else if at < |all| {
      NextBlockDiffers(t, b, user, snap);
    }
  }

  /** If the sought key lies behind the whole block, the next block begins with another user key. */
  lemma NextBlockDiffers(t: Table, b: nat, user: UserKey, snap: SequenceNumber)
    requires TableOK(t) && b < |t.blocks| && Sorted(t.blocks[b])
    requires !Less(t.index[b].key, LookupKey(user, snap)) && SeekIndex(t.blocks[b], LookupKey(user, snap)) == |t.blocks[b]|
    requires Offset(t.blocks, b) + |t.blocks[b]| < |Flatten(t.blocks)|
    ensures Flatten(t.blocks)[Offset(t.blocks, b) + |t.blocks[b]|].key.user != user
  {
    OffsetNext(t.blocks, b);
    assert Indexed(t.blocks, t.index, b);
    var n := |t.blocks[b]| - 1;
    assert Less(t.blocks[b][n].key, LookupKey(user, snap));
    assert t.blocks[..|t.blocks|] == t.blocks && b + 1 < |t.blocks|;
    assert Indexed(t.blocks, t.index, b + 1);
    EntryAt(t.blocks, b + 1, 0);
  }

  // ---- Building

  /** The index so far: the last block may still wait for the next key. */
  ghost predicate IndexOK(blocks: seq<seq<Entry>>, index: seq<IndexEntry>, next: Option<InternalKey>) {
    && (forall b :: 0 <= b < |blocks| ==> blocks[b] != [])
    && (forall b: nat :: b < |index| && b < |blocks| ==> IndexedNext(blocks, index, b, next))
  }

  ghost predicate IndexedNext(blocks: seq<seq<Entry>>, index: seq<IndexEntry>, b: nat, next: Option<InternalKey>)
    requires b < |index| && b < |blocks|
  {
    blocks[b] != [] && IndexedBy(index[b].key, LastKey(blocks[b]), if b + 1 < |blocks| then FirstKey(blocks[b + 1]) else next)
  }

  lemma IndexGrows(blocks: seq<seq<Entry>>, index: seq<IndexEntry>, next: Option<InternalKey>, entry: IndexEntry)
    requires IndexOK(blocks, index, None) && |index| + 1 == |blocks|
    requires IndexedBy(entry.key, LastKey(blocks[|blocks| - 1]), next)
    ensures IndexOK(blocks, index + [entry], next)
  {
    forall b: nat | b < |blocks|
      ensures IndexedNext(blocks, index + [entry], b, next)
    {
      assert b < |index| ==> IndexedNext(blocks, index, b, None);
    }
  }

  lemma BlockEnds(blocks: seq<seq<Entry>>, index: seq<IndexEntry>, block: seq<Entry>)
    requires IndexOK(blocks, index, FirstKey(block)) && |index| == |blocks| && block != []
    ensures IndexOK(blocks + [block], index, None)
  {
    forall b: nat | b < |index|
      ensures IndexedNext(blocks + [block], index, b, None)
    {
      assert IndexedNext(blocks, index, b, FirstKey(block));
    }
  }

  class TableBuilder {
    var blocks: seq<seq<Entry>>
    var index: seq<IndexEntry>
    var dataBlock: seq<Entry>
    var lastKey: InternalKey
    var pendingIndexEntry: bool
    var pendingHandle: nat
    var offset: nat
    ghost var entries: seq<Entry>
    ghost var filtered: set<(nat, UserKey)>     // the keys given to the filter, with the offsets of their blocks

    /** The offset of a finished block. */
    ghost function OffsetOf(b: nat): nat
      requires b < |blocks|
      reads this
    {
      if b < |index| then index[b].offset else pendingHandle
    }

    ghost predicate Valid()
      reads this
    {
      && Sorted(entries) && entries == Flatten(blocks) + dataBlock
      && (entries != [] ==> lastKey == entries[|entries| - 1].key)
      && |blocks| == |index| + (if pendingIndexEntry then 1 else 0)
      && (pendingIndexEntry <==> dataBlock == [] && blocks != [])
      && IndexOK(blocks, index, FirstKey(dataBlock)) && FilteredOK()
    }

    /** Every key of a block is in the filter under the offset of its block. */
    ghost predicate FilteredOK()
      reads this
    {
      && (forall b: nat, e :: b < |blocks| && e in blocks[b] ==> (OffsetOf(b), e.key.user) in filtered)
      && (forall e :: e in dataBlock ==> (offset, e.key.user) in filtered)
    }

    constructor ()
      ensures Valid() && entries == [] && filtered == {} && offset == 0
    {
      blocks, index, dataBlock, lastKey := [], [], [], InternalKey(0.0, 0, TypeValue);
      pendingIndexEntry, pendingHandle, offset, entries, filtered := false, 0, 0, [], {};
    }

    /** Add; `separator` is a short key between the last block and `e`, `full` tells whether the block has
        reached its size, `size` what it takes in the file. */
    method Add(e: Entry, separator: InternalKey, full: bool, size: nat)
      requires Valid() && (entries != [] ==> Before(entries[|entries| - 1].key, e.key))
      requires pendingIndexEntry ==> IndexedBy(separator, lastKey, Some(e.key))
      modifies this
      ensures Valid() && entries == old(entries) + [e] && filtered == old(filtered) + {(old(offset), e.key.user)}
      ensures offset == old(offset) + if full then size else 0
      ensures blocks == old(blocks) + if full then [old(dataBlock) + [e]] else []
      ensures index == old(index) + if old(pendingIndexEntry) then [IndexEntry(separator, old(pendingHandle))] else []
      ensures full ==> pendingHandle == old(offset)
    {
      hide IndexOK, IndexedBy, Sorted, Before, Flatten;
      if pendingIndexEntry {
        IndexPending(e, separator);
      }
      AddToBlock(e);
      if full {
        Flush(size);
      }
    }

    /** The first key of the next block is there, so that the last block can be indexed. */
    method IndexPending(e: Entry, separator: InternalKey)
      requires Valid() && pendingIndexEntry && IndexedBy(separator, lastKey, Some(e.key))
      modifies `index, `pendingIndexEntry
      ensures |blocks| == |index| && !pendingIndexEntry && FilteredOK() && IndexOK(blocks, index, Some(e.key))
      ensures index == old(index) + [IndexEntry(separator, pendingHandle)]
    {
      hide IndexOK, IndexedBy, Sorted, Before;
      LastOfBlocks();
      IndexGrows(blocks, index, Some(e.key), IndexEntry(separator, pendingHandle));
      index := index + [IndexEntry(separator, pendingHandle)];
      pendingIndexEntry := false;
    }

    method AddToBlock(e: Entry)
      requires Sorted(entries) && entries == Flatten(blocks) + dataBlock
      requires entries != [] ==> Before(entries[|entries| - 1].key, e.key)
      requires |blocks| == |index| && !pendingIndexEntry && FilteredOK()
      requires IndexOK(blocks, index, FirstKey(dataBlock + [e]))
      modifies `filtered, `lastKey, `dataBlock, `entries
      ensures Valid() && entries == old(entries) + [e] && filtered == old(filtered) + {(offset, e.key.user)}
      ensures dataBlock == old(dataBlock) + [e]
    {
      AppendSorted(entries, e);
      Assoc(Flatten(blocks), dataBlock, [e]);
      filtered := filtered + {(offset, e.key.user)};
      lastKey := e.key;
      dataBlock := dataBlock + [e];
      entries := entries + [e];
    }

    lemma LastOfBlocks()
      requires Valid() && pendingIndexEntry
      ensures lastKey == LastKey(blocks[|blocks| - 1])
    {
      var n := |blocks| - 1;
      assert entries == Flatten(blocks[..n]) + blocks[n];
    }

    lemma EndOfBlocks()
      requires Valid() && pendingIndexEntry
      ensures entries != [] && LastKey(blocks[|blocks| - 1]) == entries[|entries| - 1].key
    {
      var n := |blocks| - 1;
      assert entries == Flatten(blocks[..n]) + blocks[n];
    }

    /** Flush: the block is written, its index entry waits for the next key. */
    method Flush(size: nat)
      requires Valid()
      modifies this
      ensures Valid() && entries == old(entries) && filtered == old(filtered) && dataBlock == []
      ensures offset == old(offset) + if old(dataBlock) == [] then 0 else size
      ensures lastKey == old(lastKey) && index == old(index)
      ensures if old(dataBlock) == [] then blocks == old(blocks) && pendingHandle == old(pendingHandle)
              else blocks == old(blocks) + [old(dataBlock)] && pendingHandle == old(offset)
    {
      if dataBlock == [] {
        return;
      }
      FlattenAppend(blocks, dataBlock);
      BlockEnds(blocks, index, dataBlock);
      blocks := blocks + [dataBlock];
      pendingHandle := offset;
      offset := offset + size;
      dataBlock := [];
      pendingIndexEntry := true;
    }

    /** Finish: the last block is indexed by a short successor of its last key. */
    method Finish(successor: InternalKey, size: nat) returns (outBlocks: seq<seq<Entry>>, outIndex: seq<IndexEntry>)
      requires Valid() && (entries != [] ==> IndexedBy(successor, entries[|entries| - 1].key, None))
      modifies this
      ensures offset >= old(offset) && entries == old(entries) && filtered == old(filtered) && Flatten(outBlocks) == entries
      ensures outBlocks == old(blocks) + if old(dataBlock) == [] then [] else [old(dataBlock)]
      ensures forall mayMatch: (nat, UserKey) -> bool :: (forall o, u :: (o, u) in filtered ==> mayMatch(o, u)) ==>
                TableOK(Table(outBlocks, outIndex, mayMatch))
    {
      Flush(size);
      if pendingIndexEntry {
        LastOfBlocks();
        EndOfBlocks();
        IndexGrows(blocks, index, None, IndexEntry(successor, pendingHandle));
        index := index + [IndexEntry(successor, pendingHandle)];
        pendingIndexEntry := false;
      }
      outBlocks, outIndex := blocks, index;
      forall b: nat | b < |blocks|
        ensures Indexed(blocks, index, b)
      {
        assert IndexedNext(blocks, index, b, None);
      }
    }
  }

  lemma AppendSorted(es: seq<Entry>, e: Entry)
    requires Sorted(es) && (es != [] ==> Before(es[|es| - 1].key, e.key))
    ensures Sorted(es + [e])
  {
  }
}
