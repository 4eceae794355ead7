/** TwoLevelIterator: one cursor over the concatenation of the blocks that an index cursor
    names (table/two_level_iterator.cc). */
module TwoLevel {
  import opened DbFormat
  import opened Versions
  import opened Lookup
  import opened Cursors

  /** Where block `b` starts in the concatenation of the blocks. */
  function Offset(blocks: seq<seq<Entry>>, b: nat): nat
    requires b <= |blocks|
  {
    |Flatten(blocks[..b])|
  }

  lemma {:induction false} OffsetNext(blocks: seq<seq<Entry>>, b: nat)
    requires b < |blocks|
    ensures Offset(blocks, b + 1) == Offset(blocks, b) + |blocks[b]|
  {
    FlattenAppend(blocks[..b], blocks[b]);
    assert blocks[..b + 1] == blocks[..b] + [blocks[b]];
  }

  lemma {:induction false} EntryAt(blocks: seq<seq<Entry>>, b: nat, p: nat)
    requires b < |blocks| && p < |blocks[b]|
    ensures Offset(blocks, b) + p < |Flatten(blocks)| && Flatten(blocks)[Offset(blocks, b) + p] == blocks[b][p]
  {
    var n := |blocks| - 1;
    if b == n {
      assert blocks[..n + 1] == blocks;
    } else {
      EntryAt(blocks[..n], b, p);
      assert blocks[..n][..b] == blocks[..b];
    }
  }

  /** Keys of the index entries: at or after every key of their block, before every key of
      the blocks that follow. */
  ghost predicate Separates(index: seq<Entry>, blocks: seq<seq<Entry>>) {
    && |index| == |blocks|
    && (forall b, e :: 0 <= b < |blocks| && e in blocks[b] ==> !Less(index[b].key, e.key))
    && (forall a, b, e :: 0 <= a < b < |blocks| && e in blocks[b] ==> Less(index[a].key, e.key))
  }

  lemma {:induction false} FlattenMember(blocks: seq<seq<Entry>>, i: nat) returns (b: nat, p: nat)
    requires i < |Flatten(blocks)|
    ensures b < |blocks| && p < |blocks[b]| && i == Offset(blocks, b) + p && Flatten(blocks)[i] == blocks[b][p]
  {
    var n := |blocks| - 1;
    if i >= |Flatten(blocks[..n])| {
      b, p := n, i - |Flatten(blocks[..n])|;
    } else {
      b, p := FlattenMember(blocks[..n], i);
      assert blocks[..n][..b] == blocks[..b];
    }
  }

  /** Seeking in the one block that the index selects is seeking in the concatenation. */
  lemma SeekInBlock(index: seq<Entry>, blocks: seq<seq<Entry>>, target: InternalKey)
    requires Sorted(index) && Separates(index, blocks) && Sorted(Flatten(blocks))
    requires forall b :: 0 <= b < |blocks| ==> Sorted(blocks[b])
    ensures var b := SeekIndex(index, target);
            SeekIndex(Flatten(blocks), target)
              == if b < |blocks| then Offset(blocks, b) + SeekIndex(blocks[b], target) else |Flatten(blocks)|
  {
    var all := Flatten(blocks);
    var b := SeekIndex(index, target);
    assert blocks[..|blocks|] == blocks;
    var at := if b < |blocks| then Offset(blocks, b) + SeekIndex(blocks[b], target) else |all|;
    OffsetsAscend(blocks, if b < |blocks| then b + 1 else b, |blocks|);
    if b < |blocks| {
      OffsetNext(blocks, b);
    }
    forall i | 0 <= i < |all|
      ensures Less(all[i].key, target) <==> i < at
    {
      var c, p := FlattenMember(blocks, i);
      assert blocks[c][p] in blocks[c];
      if c < b {
        OffsetsAscend(blocks, c + 1, b);
        OffsetNext(blocks, c);
        assert Less(index[c].key, target) && !Less(index[c].key, blocks[c][p].key);
      } else if c == b {
        SortedBySeek(blocks[b], target, p);
      } else {
        OffsetsAscend(blocks, b + 1, c);
        assert !Less(index[b].key, target) && Less(index[b].key, blocks[c][p].key);
      }
    }
    SeekIndexUnique(all, target, at);
  }

  lemma SortedBySeek(es: seq<Entry>, target: InternalKey, p: nat)
    requires Sorted(es) && p < |es|
    ensures Less(es[p].key, target) <==> p < SeekIndex(es, target)
  {
    var s := SeekIndex(es, target);
    assert s < p ==> Before(es[s].key, es[p].key);
  }

  lemma SeekIndexUnique(es: seq<Entry>, target: InternalKey, at: nat)
    requires Sorted(es) && at <= |es| && forall i :: 0 <= i < |es| ==> (Less(es[i].key, target) <==> i < at)
    ensures SeekIndex(es, target) == at
  {
    var s := SeekIndex(es, target);
    assert s < |es| ==> s >= at;
    assert at < |es| ==> !Less(es[at].key, target);
  }

  lemma {:induction false} OffsetsAscend(blocks: seq<seq<Entry>>, a: nat, b: nat)
    requires a <= b <= |blocks|
    ensures Offset(blocks, a) <= Offset(blocks, b)
  {
    if a < b {
      OffsetsAscend(blocks, a, b - 1);
      OffsetNext(blocks, b - 1);
    }
  }

  // ---- A level above 0 as a two-level run (Version::LevelFileNumIterator)

  function Contents(files: seq<File>): (r: seq<seq<Entry>>)
    ensures |r| == |files| && forall i :: 0 <= i < |files| ==> r[i] == files[i].entries
  {
    seq(|files|, i requires 0 <= i < |files| => files[i].entries)
  }

  function LargestKeys(files: seq<File>): (r: seq<Entry>)
    ensures |r| == |files| && forall i :: 0 <= i < |files| ==> r[i].key == files[i].largest
  {
    seq(|files|, i requires 0 <= i < |files| => Entry(files[i].largest, ""))
  }

  lemma LevelIsTwoLevelRun(files: seq<File>)
    requires AllWellFormed(files) && Disjoint(files)
    ensures Separates(LargestKeys(files), Contents(files)) && Sorted(LargestKeys(files))
    ensures Sorted(Flatten(Contents(files)))
    ensures forall b :: 0 <= b < |files| ==> Sorted(Contents(files)[b])
  {
    forall b | 0 <= b < |files|
      ensures Sorted(Contents(files)[b])
    {
      assert WellFormed(files[b]);
    }
    forall b, e | 0 <= b < |files| && e in Contents(files)[b]
      ensures !Less(LargestKeys(files)[b].key, e.key)
    {
      EntryWithinFile(files[b], e);
    }
    forall a, b, e | 0 <= a < b < |files| && e in Contents(files)[b]
      ensures Before(files[a].largest, e.key)
    {
      EntryWithinFile(files[b], e);
    }
    forall a, b | 0 <= a < b < |files|
      ensures Before(files[a].largest, files[b].largest)
    {
      assert files[a] in files && files[b] in files && WellFormed(files[b]);
      EntryWithinFile(files[b], files[b].entries[0]);
    }
    forall i, j | 0 <= i < j < |Flatten(Contents(files))|
      ensures Before(Flatten(Contents(files))[i].key, Flatten(Contents(files))[j].key)
    {
      ConcatenationInOrder(files, i, j);
    }
  }

  lemma ConcatenationInOrder(files: seq<File>, i: nat, j: nat)
    requires AllWellFormed(files) && Disjoint(files) && i < j < |Flatten(Contents(files))|
    ensures Before(Flatten(Contents(files))[i].key, Flatten(Contents(files))[j].key)
  {
    var blocks := Contents(files);
    var a, p := FlattenMember(blocks, i);
    var b, q := FlattenMember(blocks, j);
    if b < a {
      OffsetNext(blocks, b);
      OffsetsAscend(blocks, b + 1, a);
    } else if a < b {
      EntryWithinFile(files[a], blocks[a][p]);
      EntryWithinFile(files[b], blocks[b][q]);
      assert Before(files[a].largest, files[b].smallest);
    } else {
      assert WellFormed(files[a]);
    }
  }

  class TwoLevelIterator {
    const blocks: seq<seq<Entry>>
    const index: Cursor
    var data: Cursor?          // over the block that was opened last, if any
    var dataBlock: nat         // the block handle that `data` was opened with

    ghost predicate Static() {
      && |index.es| == |blocks| && Separates(index.es, blocks) && Sorted(index.es)
      && Sorted(Flatten(blocks)) && forall b :: 0 <= b < |blocks| ==> Sorted(blocks[b])
    }

    ghost function Cursors(): set<object>
      reads this
    {
      if data == null then {this, index} else {this, index, data}
    }

    /** The data cursor runs over the block that it was opened with. */
    ghost predicate Linked()
      reads this, index, data
    {
      && Static() && index.Inv()
      && (data != null ==> data != index && data.Inv() && dataBlock < |blocks| && data.es == blocks[dataBlock])
    }

    /** Settled at position `at` of the concatenation, or not valid at its length. */
    ghost predicate At(at: nat)
      reads this, index, data
    {
      && Linked()
      && if data == null then at == |Flatten(blocks)|
         else data.Valid() && index.Valid() && dataBlock == index.pos && at == Offset(blocks, dataBlock) + data.pos
    }

    constructor (blocks: seq<seq<Entry>>, index: Cursor)
      requires index.Inv() && |index.es| == |blocks| && Separates(index.es, blocks)
      requires Sorted(Flatten(blocks)) && forall b :: 0 <= b < |blocks| ==> Sorted(blocks[b])
      ensures this.blocks == blocks && this.index == index && At(|Flatten(blocks)|)
    {
      this.blocks, this.index, data, dataBlock := blocks, index, null, 0;
    }

    predicate Valid()
      reads this, data
    {
      data != null && data.Valid()
    }

    /** key and value: those of the data cursor are the entry of the concatenation. */
    method Current(ghost at: nat) returns (e: Entry)
      requires At(at) && Valid()
      ensures at < |Flatten(blocks)| && e == Flatten(blocks)[at]
    {
      EntryAt(blocks, dataBlock, data.pos);
      e := data.es[data.pos];
    }

    method InitDataBlock()
      requires Linked()
      modifies this
      ensures Linked()
      ensures if index.Valid() then data != null && dataBlock == index.pos && (data == old(data) || fresh(data))
              else data == null
    {
      if !index.Valid() {
        data := null;
      } else if data != null && dataBlock == index.pos {
        // already open
      } else {
        data := new Cursor(blocks[index.pos]);
        dataBlock := index.pos;
      }
    }

    method SkipEmptyDataBlocksForward(ghost at: nat)
      requires Linked()
      requires if data == null then at == |Flatten(blocks)| && !index.Valid()
               else index.Valid() && dataBlock == index.pos && at == Offset(blocks, dataBlock) + data.pos
      modifies this, index, data
      ensures At(at) && (data == old(data) || data == null || fresh(data))
    {
      ghost var first := data;
      while data == null || !data.Valid()
        invariant Linked() && (data == first || data == null || fresh(data))
        invariant if data == null then at == |Flatten(blocks)| && !index.Valid()
                  else index.Valid() && dataBlock == index.pos && at == Offset(blocks, dataBlock) + data.pos
        decreases if data == null then 0 else 1 + |blocks| - dataBlock
      {
        if !index.Valid() {
          data := null;
          return;
        }
        OffsetNext(blocks, dataBlock);
        assert blocks[..|blocks|] == blocks;
        index.Next();
        InitDataBlock();
        if data != null {
          data.SeekToFirst();
        }
      }
    }

    /** Moving backward: `t` is the position sought, -1 if there is none. */
    method SkipEmptyDataBlocksBackward(ghost t: int)
      requires Linked()
      requires if data == null then t == -1 && !index.Valid()
               else index.Valid() && dataBlock == index.pos
                    && t == Offset(blocks, dataBlock) + if data.Valid() then data.pos else -1
      modifies this, index, data
      ensures At(if t < 0 then |Flatten(blocks)| else t) && (data == old(data) || data == null || fresh(data))
    {
      ghost var first := data;
      while data == null || !data.Valid()
        invariant Linked() && (data == first || data == null || fresh(data))
        invariant if data == null then t == -1 && !index.Valid()
                  else index.Valid() && dataBlock == index.pos
                       && t == Offset(blocks, dataBlock) + if data.Valid() then data.pos else -1
        decreases if data == null then 0 else 1 + dataBlock
      {
        if !index.Valid() {
          data := null;
          return;
        }
        if dataBlock > 0 {
          OffsetNext(blocks, dataBlock - 1);
        }
        index.Prev();
        InitDataBlock();
        if data != null {
          data.SeekToLast();
        }
      }
    }

    method Next(ghost at: nat)
      requires At(at) && Valid()
      modifies this, index, data
      ensures At(at + 1) && (data == old(data) || data == null || fresh(data))
    {
      data.Next();
      SkipEmptyDataBlocksForward(at + 1);
    }

    method Prev(ghost at: nat)
      requires At(at) && Valid()
      modifies this, index, data
      ensures At(if at == 0 then |Flatten(blocks)| else at - 1) && (data == old(data) || data == null || fresh(data))
    {
      data.Prev();
      SkipEmptyDataBlocksBackward(at - 1);
    }

    method SeekToFirst()
      requires Linked()
      modifies this, index, data
      ensures At(0) && (data == old(data) || data == null || fresh(data))
    {
      index.SeekToFirst();
      InitDataBlock();
      if data != null {
        data.SeekToFirst();
      }
      SkipEmptyDataBlocksForward(0);
    }

    method SeekToLast()
      requires Linked()
      modifies this, index, data
      ensures At(if Flatten(blocks) == [] then 0 else |Flatten(blocks)| - 1)
      ensures data == old(data) || data == null || fresh(data)
    {
      index.SeekToLast();
      InitDataBlock();
      if data != null {
        OffsetNext(blocks, dataBlock);
        assert blocks[..|blocks|] == blocks;
        data.SeekToLast();
      }
      SkipEmptyDataBlocksBackward(|Flatten(blocks)| - 1);
    }

    method Seek(target: InternalKey)
      requires Linked()
      modifies this, index, data
      ensures At(SeekIndex(Flatten(blocks), target)) && (data == old(data) || data == null || fresh(data))
    {
      index.Seek(target);
      InitDataBlock();
      if data != null {
        data.Seek(target);
      }
      SeekInBlock(index.es, blocks, target);
      SkipEmptyDataBlocksForward(SeekIndex(Flatten(blocks), target));
    }
  }
}
