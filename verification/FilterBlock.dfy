/** Filter blocks: one filter for the keys of the blocks that start in the same 2 KB of the file
    (table/filter_block.cc). The policy is any one whose filters match their own keys. */
module FilterBlock {
  import opened Bytes
  import opened Concatenation
  import opened DbFormat
  import opened BlockFormat
  import opened BlockReader

  const FILTER_BASE: nat := 2048

  /** FilterPolicy: its filters may match other keys, but always match their own. */
  datatype Policy = Policy(create: seq<Str> -> Str, mayMatch: (Str, Str) -> bool)

  ghost predicate PolicyOK(p: Policy) {
    forall keys: seq<Str>, key: Str :: key in keys ==> p.mayMatch(key, p.create(keys))
  }

  /** The keys of one filter; no keys make an empty filter. */
  function FilterOf(p: Policy, keys: seq<Str>): Str {
    if keys == [] then [] else p.create(keys)
  }

  function Maker(p: Policy): seq<Str> -> Str {
    (keys: seq<Str>) => FilterOf(p, keys)
  }

  /** The filters of the first `n` groups, one after the other. */
  function Filters(p: Policy, groups: seq<seq<Str>>, n: nat): Str
    requires n <= |groups|
  {
    Concat(Maker(p), groups, n)
  }

  function Starts(p: Policy, groups: seq<seq<Str>>): seq<nat> {
    seq(|groups|, i requires 0 <= i < |groups| => |Filters(p, groups, i)|)
  }

  /** The finished filter block for these groups of keys. */
  function FilterBytes(p: Policy, groups: seq<seq<Str>>): Str {
    var filters := Filters(p, groups, |groups|);
    filters + (Concat(Fixed, Starts(p, groups), |groups|) + (Fixed(|filters|) + [11]))
  }

  class FilterBlockBuilder {
    const policy: Policy
    var keys: seq<Str>
    var result: Str
    var filterOffsets: seq<nat>
    ghost var groups: seq<seq<Str>>
    ghost var placed: seq<(nat, Str)>    // the keys, each with the offset of its data block
    ghost var at: nat                    // the offset of the data block being filled

    /** Each key is in the group of its block's offset, or waits for it. */
    ghost predicate PlacedOK()
      reads this
    {
      forall o, k :: (o, k) in placed ==>
        && o / FILTER_BASE <= |groups|
        && if o / FILTER_BASE < |groups| then k in groups[o / FILTER_BASE] else k in keys
    }

    ghost predicate Valid()
      reads this
    {
      && result == Filters(policy, groups, |groups|) && filterOffsets == Starts(policy, groups)
      && |groups| == at / FILTER_BASE && PlacedOK()
    }

    constructor (policy: Policy)
      ensures Valid() && at == 0 && placed == [] && this.policy == policy
    {
      this.policy, keys, result, filterOffsets, groups, placed, at := policy, [], [], [], [], [], 0;
    }

    /** The next data block starts at `blockOffset`. */
    method StartBlock(blockOffset: nat)
      requires Valid() && at <= blockOffset
      modifies this
      ensures Valid() && at == blockOffset && placed == old(placed)
    {
      var filterIndex := blockOffset / FILTER_BASE;
      assert filterIndex >= |filterOffsets|;
      while filterIndex > |filterOffsets|
        invariant |filterOffsets| == |groups| <= filterIndex && placed == old(placed) && PlacedOK()
        invariant result == Filters(policy, groups, |groups|) && filterOffsets == Starts(policy, groups)
      {
        GenerateFilter();
      }
      at := blockOffset;
    }

    method AddKey(key: Str)
      requires Valid()
      modifies `keys, `placed
      ensures Valid() && placed == old(placed) + [(at, key)]
    {
      keys := keys + [key];
      placed := placed + [(at, key)];
    }

    /** The keys seen since the last filter become a group. */
    method GenerateFilter()
      requires PlacedOK() && result == Filters(policy, groups, |groups|) && filterOffsets == Starts(policy, groups)
      modifies `keys, `result, `filterOffsets, `groups
      ensures PlacedOK() && result == Filters(policy, groups, |groups|) && filterOffsets == Starts(policy, groups)
      ensures groups == old(groups) + [old(keys)] && keys == []
    {
      MoreFilters(policy, groups, keys);
      filterOffsets := filterOffsets + [|result|];
      if keys != [] {
        result := result + policy.create(keys);
      }
      groups := groups + [keys];
      keys := [];
    }

    /** The finished block; the last keys get a filter of their own. */
    method Finish() returns (contents: Str)
      requires Valid()
      modifies this
      ensures placed == old(placed) && contents == FilterBytes(policy, groups) && keys == [] && PlacedOK()
    {
      if keys != [] {
        GenerateFilter();
      }
      var offset := |result|;
      ghost var filters := result;
      AppendOffsets();
      result := result + Fixed(offset);
      result := result + [11];
      FourParts(filters, Concat(Fixed, filterOffsets, |groups|), Fixed(offset), [11]);
      contents := result;
    }

    method AppendOffsets()
      modifies `result
      ensures result == old(result) + Concat(Fixed, filterOffsets, |filterOffsets|)
    {
      for i := 0 to |filterOffsets|
        invariant result == old(result) + Concat(Fixed, filterOffsets, i)
      {
        Assoc(old(result), Concat(Fixed, filterOffsets, i), Fixed(filterOffsets[i]));
        result := result + Fixed(filterOffsets[i]);
      }
    }
  }

  lemma FourParts(a: Str, b: Str, c: Str, d: Str)
    ensures ((a + b) + c) + d == a + (b + (c + d))
  {
  }

  lemma MoreFilters(p: Policy, groups: seq<seq<Str>>, keys: seq<Str>)
    ensures Filters(p, groups + [keys], |groups| + 1) == Filters(p, groups, |groups|) + FilterOf(p, keys)
    ensures Starts(p, groups + [keys]) == Starts(p, groups) + [|Filters(p, groups, |groups|)|]
  {
    ConcatPrefix(Maker(p), groups, [keys], |groups|);
    forall i | 0 <= i < |groups|
      ensures Filters(p, groups + [keys], i) == Filters(p, groups, i)
    {
      ConcatPrefix(Maker(p), groups, [keys], i);
    }
  }

  // ---- Reading

  /** FilterBlockReader: the data, where the offsets start, and how many there are. */
  datatype Reader = Reader(data: Str, offsetsAt: nat, num: nat, baseLg: nat)

  function OpenReader(contents: Str): (r: Reader)
    ensures r.num > 0 ==> r.offsetsAt + 4 * r.num + 4 <= |r.data|
  {
    var n := |contents|;
    if n < 5 then Reader([], 0, 0, 0)
    else
      var lastWord := DecodeFixed32(contents[n - 5..]);
      if lastWord > n - 5 then Reader([], 0, 0, contents[n - 1] as nat)
      else Reader(contents, lastWord, (n - 5 - lastWord) / 4, contents[n - 1] as nat)
  }

  function ShiftRight(n: nat, bits: nat): nat {
    if bits == 0 then n else ShiftRight(n / 2, bits - 1)
  }

  /** Which filter covers a data block at this offset. */
  function FilterIndex(r: Reader, blockOffset: nat): nat {
    ShiftRight(blockOffset, r.baseLg)
  }

  /** FilterBlockReader::KeyMayMatch. */
  function KeyMayMatch(p: Policy, r: Reader, blockOffset: nat, key: Str): bool
    requires r.num > 0 ==> r.offsetsAt + 4 * r.num + 4 <= |r.data|
  {
    var index := FilterIndex(r, blockOffset);
    index < r.num ==> FilterMayMatch(p, r, index, key)
  }

  function FilterMayMatch(p: Policy, r: Reader, index: nat, key: Str): bool
    requires index < r.num && r.offsetsAt + 4 * r.num + 4 <= |r.data|
  {
    var start, limit := DecodeFixed32(r.data[r.offsetsAt + 4 * index..]), DecodeFixed32(r.data[r.offsetsAt + 4 * index + 4..]);
    if start <= limit && limit <= r.offsetsAt then p.mayMatch(key, r.data[start..limit])
    else start != limit
  }

  lemma ReaderOfBlock(p: Policy, groups: seq<seq<Str>>)
    requires |FilterBytes(p, groups)| < LIMIT
    ensures OpenReader(FilterBytes(p, groups)) == Reader(FilterBytes(p, groups), |Filters(p, groups, |groups|)|, |groups|, 11)
    ensures |FilterBytes(p, groups)| == |Filters(p, groups, |groups|)| + 4 * |groups| + 5
  {
    var filters, starts := Filters(p, groups, |groups|), Starts(p, groups);
    FixedLength(starts, |groups|);
    var contents := FilterBytes(p, groups);
    LastWord(filters, Concat(Fixed, starts, |groups|), Fixed(|filters|));
    FixedRoundTrip(|filters|, [11]);
  }

  lemma LastWord(a: Str, b: Str, c: Str)
    requires |c| == 4
    ensures var s := a + (b + (c + [11]));
      |s| == |a| + |b| + 5 && s[|s| - 5..] == c + [11] && s[|s| - 1] == 11
  {
  }

  /** The array holds the start of each filter, and behind the last the end of all filters. */
  lemma OffsetReadsBack(p: Policy, groups: seq<seq<Str>>, i: nat)
    requires |FilterBytes(p, groups)| < LIMIT && i <= |groups|
    ensures var at := |Filters(p, groups, |groups|)|;
      && at + 4 * i + 4 <= |FilterBytes(p, groups)|
      && DecodeFixed32(FilterBytes(p, groups)[at + 4 * i..]) == |Filters(p, groups, i)|
  {
    var filters, starts := Filters(p, groups, |groups|), Starts(p, groups);
    ReaderOfBlock(p, groups);
    FixedLength(starts, |groups|);
    FixedLength(starts, i);
    var table, tail := Concat(Fixed, starts, |groups|), Fixed(|filters|) + [11];
    ConcatGrows(Maker(p), groups, i, |groups|);
    if i < |groups| {
      PieceWithin(Fixed, starts, |groups|, i);
      FixedLength(starts, i + 1);
      SliceBehind(filters, table, tail, 4 * i, Fixed(starts[i]));
      FixedRoundTrip(starts[i], FilterBytes(p, groups)[|filters| + 4 * i + 4..]);
    } else {
      EndsWith(filters, table, tail);
      FixedRoundTrip(|filters|, [11]);
    }
  }

  lemma {:induction false} ConcatGrows<T, E>(piece: T -> seq<E>, items: seq<T>, a: nat, b: nat)
    requires a <= b <= |items|
    ensures |Concat(piece, items, a)| <= |Concat(piece, items, b)|
  {
    if a < b {
      ConcatGrows(piece, items, a, b - 1);
    }
  }

  /** The filter of a group reads back, so that a key never misses its own group. */
  lemma NeverMisses(p: Policy, groups: seq<seq<Str>>, blockOffset: nat, key: Str)
    requires PolicyOK(p) && |FilterBytes(p, groups)| < LIMIT
    requires blockOffset / FILTER_BASE < |groups| ==> key in groups[blockOffset / FILTER_BASE]
    ensures var r := OpenReader(FilterBytes(p, groups));
      && (r.num > 0 ==> r.offsetsAt + 4 * r.num + 4 <= |r.data|) && KeyMayMatch(p, r, blockOffset, key)
  {
    FilterAnswers(p, groups, blockOffset, key);
  }

  /** The reader asks exactly the filter of the group, and finds every key behind the last group. */
  lemma FilterAnswers(p: Policy, groups: seq<seq<Str>>, blockOffset: nat, key: Str)
    requires |FilterBytes(p, groups)| < LIMIT
    ensures var r := OpenReader(FilterBytes(p, groups));
      && (r.num > 0 ==> r.offsetsAt + 4 * r.num + 4 <= |r.data|)
      && (KeyMayMatch(p, r, blockOffset, key)
          <==> (blockOffset / 2048 < |groups| ==> p.mayMatch(key, FilterOf(p, groups[blockOffset / 2048]))))
  {
    ReaderOfBlock(p, groups);
    var i, r := blockOffset / 2048, OpenReader(FilterBytes(p, groups));
    IndexOfOffset(r, blockOffset);
    if i < |groups| {
      GroupAnswers(p, groups, i, key);
    }
  }

  lemma EightTimes(n: nat, bits: nat)
    requires bits >= 3
    ensures ShiftRight(n, bits) == ShiftRight(n / 8, bits - 3)
  {
    assert n / 2 / 2 / 2 == n / 8;
    assert ShiftRight(n, bits) == ShiftRight(n / 2, bits - 1) == ShiftRight(n / 2 / 2, bits - 2);
  }

  lemma IndexOfOffset(r: Reader, blockOffset: nat)
    requires r.baseLg == 11
    ensures FilterIndex(r, blockOffset) == blockOffset / FILTER_BASE
  {
    EightTimes(blockOffset, 11);
    EightTimes(blockOffset / 8, 8);
    EightTimes(blockOffset / 64, 5);
    var n := blockOffset / 512;
    assert ShiftRight(n, 2) == ShiftRight(n / 2, 1) == ShiftRight(n / 2 / 2, 0) == n / 4;
  }

  lemma GroupAnswers(p: Policy, groups: seq<seq<Str>>, i: nat, key: Str)
    requires |FilterBytes(p, groups)| < LIMIT && i < |groups|
    ensures var r := OpenReader(FilterBytes(p, groups));
      && r.num == |groups| && r.offsetsAt + 4 * r.num + 4 <= |r.data|
      && FilterMayMatch(p, r, i, key) == p.mayMatch(key, FilterOf(p, groups[i]))
  {
    hide DecodeFixed32;
    ReaderOfBlock(p, groups);
    OffsetReadsBack(p, groups, i);
    OffsetReadsBack(p, groups, i + 1);
    ConcatGrows(Maker(p), groups, i, i + 1);
    ConcatGrows(Maker(p), groups, i + 1, |groups|);
    PieceWithin(Maker(p), groups, |groups|, i);
    var filters := Filters(p, groups, |groups|);
    SliceOfFront(filters, Concat(Fixed, Starts(p, groups), |groups|) + (Fixed(|filters|) + [11]),
                 |Filters(p, groups, i)|, |Filters(p, groups, i + 1)|);
  }

  lemma SliceOfFront(a: Str, b: Str, start: nat, limit: nat)
    requires start <= limit <= |a|
    ensures (a + b)[start..limit] == a[start..limit]
  {
  }
}
