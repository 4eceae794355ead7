/** The memtable's skip list (db/skiplist.h). One writer inserts while readers search without a
    lock; every link store is a step. Keys are unique, so a node is known by its key. */
module SkipLists {

  /** A key's rank in the comparator's order. */
  type Key = real

  const MAX_HEIGHT: nat := 12

  datatype Ref = Head | Node(key: Key)
  datatype Link = Unset | Nil | To(key: Key)

  /** The links of each node, lowest level first. */
  type Links = map<Ref, seq<Link>>

  /** The keys linked at each level. */
  type Levels = seq<set<Key>>

  predicate After(k: Key, x: Ref) {
    x.Head? || x.key < k
  }

  ghost predicate Linked(levels: Levels, l: nat, x: Ref) {
    l < |levels| && (x.Head? || x.key in levels[l])
  }

  /** The link leads from `x` to the next key of the level, or ends the list. */
  ghost predicate Follows(level: set<Key>, x: Ref, link: Link) {
    && !link.Unset? && (link.To? ==> link.key in level && After(link.key, x))
    && forall k :: k in level && After(k, x) ==> link.To? && link.key <= k
  }

  /** A node linked at a level has that link set, and it follows the order of the level. */
  ghost predicate LinkOK(next: Links, levels: Levels, l: nat, x: Ref)
    requires l < |levels|
  {
    x in next && l < |next[x]| && Follows(levels[l], x, next[x][l])
  }

  /** Each level is a sorted list, and a part of the level below. */
  ghost predicate ListOK(next: Links, maxHeight: nat, levels: Levels) {
    && |levels| == MAX_HEIGHT && 1 <= maxHeight <= MAX_HEIGHT && Head in next && |next[Head]| == MAX_HEIGHT
    && (forall l :: maxHeight <= l < MAX_HEIGHT ==> levels[l] == {})
    && (forall l, m :: 0 <= l <= m < MAX_HEIGHT ==> levels[m] <= levels[l])
    && (forall l: nat, x :: l < MAX_HEIGHT && Linked(levels, l, x) ==> LinkOK(next, levels, l, x))
  }

  /** `x` is the last node of the level before `key`. */
  ghost predicate Precedes(levels: Levels, l: nat, x: Ref, key: Key) {
    && Linked(levels, l, x) && After(key, x)
    && forall k :: k in levels[l] && k < key ==> x.Node? && k <= x.key
  }

  // ---- The writer's steps

  datatype Memory = Memory(next: Links, maxHeight: nat, ghost levels: Levels)

  ghost predicate OK(m: Memory) {
    ListOK(m.next, m.maxHeight, m.levels)
  }

  ghost predicate RaiseHeight(m: Memory, m': Memory) {
    m.maxHeight <= m'.maxHeight <= MAX_HEIGHT && m' == m.(maxHeight := m'.maxHeight)
  }

  /** A new node: all its links are unset. */
  ghost predicate Allocate(m: Memory, m': Memory, key: Key, height: nat) {
    && Node(key) !in m.next && m' == m.(next := m.next[Node(key) := seq(height, _ => Unset)])
  }

  /** NoBarrier_SetNext on the new node. */
  ghost predicate SetOwnLink(m: Memory, m': Memory, key: Key, l: nat, prev: Ref) {
    && Node(key) in m.next && l < |m.next[Node(key)]| && !Linked(m.levels, l, Node(key))
    && Precedes(m.levels, l, prev, key) && prev in m.next && l < |m.next[prev]|
    && m' == m.(next := m.next[Node(key) := m.next[Node(key)][l := m.next[prev][l]]])
  }

  /** SetNext on the node before: from now on readers find the node at this level. */
  ghost predicate Publish(m: Memory, m': Memory, key: Key, l: nat, prev: Ref) {
    && Node(key) in m.next && l < |m.next[Node(key)]| && l < m.maxHeight && !Linked(m.levels, l, Node(key))
    && (forall i: nat :: i < l ==> Linked(m.levels, i, Node(key)))
    && Precedes(m.levels, l, prev, key) && prev in m.next && l < |m.next[prev]|
    && m.next[Node(key)][l] == m.next[prev][l]
    && m' == m.(next := m.next[prev := m.next[prev][l := To(key)]], levels := m.levels[l := m.levels[l] + {key}])
  }

  ghost predicate WriterStep(m: Memory, m': Memory) {
    || RaiseHeight(m, m')
    || (exists key, height :: Allocate(m, m', key, height))
    || (exists key, l, prev :: SetOwnLink(m, m', key, l, prev))
    || (exists key, l, prev :: Publish(m, m', key, l, prev))
  }

  /** Keys are never unlinked. */
  ghost predicate Grows(levels: Levels, levels': Levels) {
    |levels| == |levels'| && forall l :: 0 <= l < |levels| ==> levels[l] <= levels'[l]
  }

  lemma PublishKeepsOK(m: Memory, m': Memory, key: Key, l: nat, prev: Ref)
    requires OK(m) && Publish(m, m', key, l, prev)
    ensures OK(m') && Grows(m.levels, m'.levels)
  {
    forall i, j | 0 <= i <= j < MAX_HEIGHT
      ensures m'.levels[j] <= m'.levels[i]
    {
      assert i < l ==> Linked(m.levels, i, Node(key));
    }
    forall i: nat, x | i < MAX_HEIGHT && Linked(m'.levels, i, x)
      ensures LinkOK(m'.next, m'.levels, i, x)
    {
      assert LinkOK(m.next, m.levels, l, prev);
      if Linked(m.levels, i, x) {
        assert LinkOK(m.next, m.levels, i, x);
      }
    }
  }

  lemma WriterKeepsOK(m: Memory, m': Memory)
    requires OK(m) && WriterStep(m, m')
    ensures OK(m') && Grows(m.levels, m'.levels)
  {
    if RaiseHeight(m, m') {
      assert forall l: nat, x :: l < MAX_HEIGHT && Linked(m.levels, l, x) ==> LinkOK(m.next, m.levels, l, x);
    } else if key, height :| Allocate(m, m', key, height) {
      forall l: nat, x | l < MAX_HEIGHT && Linked(m'.levels, l, x)
        ensures LinkOK(m'.next, m'.levels, l, x)
      {
        assert LinkOK(m.next, m.levels, l, x);
      }
    } else if key, l, prev :| SetOwnLink(m, m', key, l, prev) {
      forall i: nat, x | i < MAX_HEIGHT && Linked(m'.levels, i, x)
        ensures LinkOK(m'.next, m'.levels, i, x)
      {
        assert LinkOK(m.next, m.levels, i, x);
      }
    } else {
      var key, l, prev :| Publish(m, m', key, l, prev);
      PublishKeepsOK(m, m', key, l, prev);
    }
  }

  // ---- Readers

  /** A search for `target`, or for the end of the list. */
  datatype Reader = Searching(x: Ref, level: nat) | Done(x: Ref, link: Link)

  predicate Before(k: Key, target: Target) {
    target.End? || k < target.key
  }

  datatype Target = At(key: Key) | End

  ghost predicate ReaderOK(levels: Levels, r: Reader, target: Target) {
    r.Searching? ==> Linked(levels, r.level, r.x) && (r.x.Node? ==> Before(r.x.key, target))
  }

  /** One load of a link, and what the search does with it. */
  function ReaderStep(next: Links, r: Reader, target: Target): Reader
    requires r.Searching? && r.x in next && r.level < |next[r.x]|
  {
    var link := next[r.x][r.level];
    if link.To? && Before(link.key, target) then Searching(Node(link.key), r.level)
    else if r.level == 0 then Done(r.x, link)
    else Searching(r.x, r.level - 1)
  }

  /** No reader follows an unset link, and each load keeps the reader on linked nodes. */
  lemma ReaderStepIsSafe(m: Memory, r: Reader, target: Target)
    requires OK(m) && r.Searching? && ReaderOK(m.levels, r, target)
    ensures r.x in m.next && r.level < |m.next[r.x]| && !m.next[r.x][r.level].Unset?
    ensures ReaderOK(m.levels, ReaderStep(m.next, r, target), target)
    ensures ReaderStep(m.next, r, target).Done? ==> Answers(m.levels[0], ReaderStep(m.next, r, target), target)
  {
    assert LinkOK(m.next, m.levels, r.level, r.x);
  }

  /** The right answer with respect to `keys`: the last key before the target and the first one
      at or after it. The answer itself may be newer than `keys`. */
  ghost predicate Answers(keys: set<Key>, r: Reader, target: Target) {
    && r.Done? && !r.link.Unset?
    && (r.x.Node? ==> Before(r.x.key, target)) && (r.link.To? ==> !Before(r.link.key, target))
    && forall k :: k in keys ==>
         if Before(k, target) then r.x.Node? && k <= r.x.key else r.link.To? && r.link.key <= k
  }

  /** A reader beside the writer. */
  datatype Moment = Moment(m: Memory, r: Reader)

  ghost predicate MomentStep(s: Moment, s': Moment, target: Target) {
    || (WriterStep(s.m, s'.m) && s'.r == s.r)
    || (s'.m == s.m && s.r.Searching? && s.r.x in s.m.next && s.r.level < |s.m.next[s.r.x]|
        && s'.r == ReaderStep(s.m.next, s.r, target))
  }

  /** A search that starts in the first moment, with whatever height it saw. */
  ghost predicate Search(run: seq<Moment>, target: Target) {
    && run != [] && OK(run[0].m) && run[0].r.Searching? && run[0].r.x.Head? && run[0].r.level < MAX_HEIGHT
    && forall i :: 0 < i < |run| ==> MomentStep(run[i - 1], run[i], target)
  }

  /** However the writer's stores fall between the reader's loads, the structure stays sorted at
      every level, no unset link is followed, and a finished search has missed no key that was
      there when it began. */
  lemma {:induction false} InterleavedSearch(run: seq<Moment>, target: Target, i: nat)
    requires Search(run, target) && i < |run|
    ensures OK(run[i].m) && ReaderOK(run[i].m.levels, run[i].r, target) && Grows(run[0].m.levels, run[i].m.levels)
    ensures run[i].r.Searching? ==> LinkOK(run[i].m.next, run[i].m.levels, run[i].r.level, run[i].r.x)
    ensures run[i].r.Done? ==> Answers(run[0].m.levels[0], run[i].r, target)
    ensures run[i].r.Done? && run[i].r.link.To? ==> run[i].r.link.key in run[i].m.levels[0]
    ensures run[i].r.Done? && run[i].r.x.Node? ==> run[i].r.x.key in run[i].m.levels[0]
  {
    if i > 0 {
      InterleavedSearch(run, target, i - 1);
      var s, s' := run[i - 1], run[i];
      if WriterStep(s.m, s'.m) && s'.r == s.r {
        WriterKeepsOK(s.m, s'.m);
      } else {
        ReaderStepIsSafe(s.m, s.r, target);
      }
    }
  }

  // ---- The class

  function Ahead(level: set<Key>, x: Ref): set<Key> {
    set k | k in level && After(k, x)
  }

  lemma MovesAhead(level: set<Key>, x: Ref, k: Key)
    requires k in level && After(k, x)
    ensures Ahead(level, Node(k)) < Ahead(level, x)
  {
    assert k in Ahead(level, x) && k !in Ahead(level, Node(k));
  }

  class SkipList {
    var next: Links
    var maxHeight: nat
    ghost var levels: Levels

    ghost function State(): Memory
      reads this
    {
      Memory(next, maxHeight, levels)
    }

    ghost predicate Valid()
      reads this
    {
      OK(State()) && forall k :: Node(k) in next ==> k in levels[0]
    }

    ghost function Keys(): set<Key>
      requires Valid()
      reads this
    {
      levels[0]
    }

    constructor ()
      ensures Valid() && Keys() == {}
    {
      next := map[Head := seq(MAX_HEIGHT, _ => Nil)];
      maxHeight := 1;
      levels := seq(MAX_HEIGHT, _ => {});
    }

    /** A search with no writer beside it; `prev` is filled for every level in use. */
    method FindGreaterOrEqual(key: Key) returns (node: Link, prev: seq<Ref>)
      requires Valid()
      ensures |prev| == MAX_HEIGHT && forall l: nat :: l < maxHeight ==> Precedes(levels, l, prev[l], key)
      ensures Answers(Keys(), Done(prev[0], node), At(key)) && (node.To? ==> node.key in Keys())
    {
      var x := Head;
      var level := maxHeight - 1;
      prev := seq(MAX_HEIGHT, _ => Head);
      while true
        invariant 0 <= level < maxHeight && |prev| == MAX_HEIGHT
        invariant Linked(levels, level, x) && After(key, x)
        invariant forall l: nat :: level < l < maxHeight ==> Precedes(levels, l, prev[l], key)
        decreases level, Ahead(levels[level], x)
      {
        assert LinkOK(next, levels, level, x);
        var link := next[x][level];
        if link.To? && link.key < key {
          MovesAhead(levels[level], x, link.key);
          x := Node(link.key);
        } else {
          prev := prev[level := x];
          if level == 0 {
            return link, prev;
          }
          level := level - 1;
        }
      }
    }

    method FindLessThan(key: Key) returns (x: Ref)
      requires Valid()
      ensures Precedes(levels, 0, x, key)
    {
      x := Head;
      var level := maxHeight - 1;
      while true
        invariant 0 <= level < maxHeight && Linked(levels, level, x) && After(key, x)
        decreases level, Ahead(levels[level], x)
      {
        assert LinkOK(next, levels, level, x);
        var link := next[x][level];
        if link.Nil? || link.key >= key {
          if level == 0 {
            return;
          }
          level := level - 1;
        } else {
          MovesAhead(levels[level], x, link.key);
          x := Node(link.key);
        }
      }
    }

    method FindLast() returns (x: Ref)
      requires Valid()
      ensures Linked(levels, 0, x) && forall k :: k in Keys() ==> x.Node? && k <= x.key
    {
      x := Head;
      var level := maxHeight - 1;
      while true
        invariant 0 <= level < maxHeight && Linked(levels, level, x)
        decreases level, Ahead(levels[level], x)
      {
        assert LinkOK(next, levels, level, x);
        var link := next[x][level];
        if link.Nil? {
          if level == 0 {
            return;
          }
          level := level - 1;
        } else {
          MovesAhead(levels[level], x, link.key);
          x := Node(link.key);
        }
      }
    }

    method Contains(key: Key) returns (r: bool)
      requires Valid()
      ensures r <==> key in Keys()
    {
      var x, _ := FindGreaterOrEqual(key);
      r := x.To? && x.key == key;
    }

    /** Insert, with the height that RandomHeight drew. `trace` lists the memory before and after
        every store, each of them a step that is safe for readers. */
    method Insert(key: Key, height: nat) returns (ghost trace: seq<Memory>)
      requires Valid() && key !in Keys() && 1 <= height <= MAX_HEIGHT
      modifies this
      ensures Valid() && Keys() == old(Keys()) + {key}
      ensures forall l :: 0 <= l < MAX_HEIGHT ==> levels[l] == old(levels[l]) + if l < height then {key} else {}
      ensures NewTrace(trace, old(State()), State())
    {
      ghost var first := State();
      var _, prev := FindGreaterOrEqual(key);
      prev := Raise(key, height, prev);
      ghost var raised := State();
      next := next[Node(key) := seq(height, _ => Unset)];
      assert Allocate(raised, State(), key, height);
      WriterKeepsOK(raised, State());
      trace := [first, raised, State()];
      for i := 0 to height
        invariant Linking(State(), first, key, height, i) && NewTrace(trace, first, State())
        invariant |prev| == MAX_HEIGHT && forall l: nat :: l < height ==> Precedes(first.levels, l, prev[l], key)
      {
        ghost var owned, published := LinkLevel(first, key, height, i, prev[i]);
        trace := trace + [owned, published];
      }
      assert key in levels[0];
    }

    /** Use more levels if the new node is higher than the list. */
    method Raise(key: Key, height: nat, prev: seq<Ref>) returns (prev': seq<Ref>)
      requires Valid() && height <= MAX_HEIGHT && |prev| == MAX_HEIGHT
      requires forall l: nat :: l < maxHeight ==> Precedes(levels, l, prev[l], key)
      modifies `maxHeight
      ensures Valid() && RaiseHeight(old(State()), State()) && height <= maxHeight
      ensures |prev'| == MAX_HEIGHT && forall l: nat :: l < maxHeight ==> Precedes(levels, l, prev'[l], key)
    {
      ghost var before := State();
      prev' := prev;
      if height > maxHeight {
        for i := maxHeight to height
          invariant |prev'| == MAX_HEIGHT && forall l: nat :: l < i ==> Precedes(levels, l, prev'[l], key)
        {
          prev' := prev'[i := Head];
        }
        maxHeight := height;
      }
      WriterKeepsOK(before, State());
    }

    /** One round of the loop of Insert: two stores. */
    method LinkLevel(ghost first: Memory, key: Key, ghost height: nat, i: nat, p: Ref) returns (ghost owned: Memory, ghost published: Memory)
      requires Linking(State(), first, key, height, i) && i < height && Precedes(first.levels, i, p, key)
      modifies this
      ensures Linking(State(), first, key, height, i + 1)
      ensures WriterStep(old(State()), owned) && WriterStep(owned, published) && published == State()
    {
      ghost var before := State();
      NotLinkedYet(before, first, key, i);
      assert LinkOK(next, levels, i, p);
      next := next[Node(key) := next[Node(key)][i := next[p][i]]];
      owned := State();
      assert SetOwnLink(before, owned, key, i, p);
      WriterKeepsOK(before, owned);
      next := next[p := next[p][i := To(key)]];
      levels := levels[i := levels[i] + {key}];
      published := State();
      assert Publish(owned, published, key, i, p);
      WriterKeepsOK(owned, published);
    }
  }

  /** The new node is linked at the levels below `i`, and nothing else has changed. */
  ghost predicate Linking(m: Memory, first: Memory, key: Key, height: nat, i: nat) {
    && OK(m) && OK(first) && key !in first.levels[0] && height <= m.maxHeight
    && Node(key) in m.next && |m.next[Node(key)]| == height
    && (forall k :: Node(k) in m.next ==> k == key || k in first.levels[0])
    && (forall l :: 0 <= l < MAX_HEIGHT ==> m.levels[l] == first.levels[l] + if l < i then {key} else {})
  }

  ghost predicate NewTrace(trace: seq<Memory>, first: Memory, last: Memory) {
    && trace != [] && trace[0] == first && trace[|trace| - 1] == last
    && forall i :: 0 < i < |trace| ==> WriterStep(trace[i - 1], trace[i])
  }

  lemma NotLinkedYet(m: Memory, first: Memory, key: Key, i: nat)
    requires OK(m) && OK(first) && key !in first.levels[0] && i < MAX_HEIGHT
    requires forall l :: 0 <= l < MAX_HEIGHT ==> m.levels[l] == first.levels[l] + if l < i then {key} else {}
    ensures !Linked(m.levels, i, Node(key)) && forall l: nat :: l < i ==> Linked(m.levels, l, Node(key))
  {
    assert first.levels[i] <= first.levels[0];
  }

  /** `node` is the last key before `key`, or nothing if there is none. */
  ghost predicate LastBefore(keys: set<Key>, key: Key, node: Link) {
    && !node.Unset? && (node.To? ==> node.key in keys && node.key < key)
    && forall k :: k in keys && k < key ==> node.To? && k <= node.key
  }

  class Iterator {
    const list: SkipList
    var node: Link

    ghost predicate Valid()
      reads this, list
    {
      list.Valid() && !node.Unset? && (node.To? ==> node.key in list.Keys())
    }

    constructor (list: SkipList)
      requires list.Valid()
      ensures Valid() && node.Nil? && this.list == list
    {
      this.list, node := list, Nil;
    }

    method Next()
      requires Valid() && node.To?
      modifies `node
      ensures Valid() && Follows(list.Keys(), Node(old(node.key)), node)
    {
      assert LinkOK(list.next, list.levels, 0, Node(node.key));
      node := list.next[Node(node.key)][0];
    }

    method Prev()
      requires Valid() && node.To?
      modifies `node
      ensures Valid() && LastBefore(list.Keys(), old(node.key), node)
    {
      var x := list.FindLessThan(node.key);
      node := if x.Head? then Nil else To(x.key);
    }

    method Seek(target: Key)
      requires Valid()
      modifies `node
      ensures Valid() && (node.To? ==> target <= node.key)
      ensures forall k :: k in list.Keys() && target <= k ==> node.To? && node.key <= k
    {
      ghost var prev;
      node, prev := list.FindGreaterOrEqual(target);
    }

    method SeekToFirst()
      requires Valid()
      modifies `node
      ensures Valid() && Follows(list.Keys(), Head, node)
    {
      assert LinkOK(list.next, list.levels, 0, Head);
      node := list.next[Head][0];
    }

    method SeekToLast()
      requires Valid()
      modifies `node
      ensures Valid() && forall k :: k in list.Keys() ==> node.To? && k <= node.key
    {
      var x := list.FindLast();
      node := if x.Head? then Nil else To(x.key);
    }
  }

  /** Next and Prev undo each other. */
  lemma NextUndoesPrev(keys: set<Key>, a: Key, b: Key)
    requires a in keys && b in keys
    ensures Follows(keys, Node(a), To(b)) <==> LastBefore(keys, b, To(a))
  {
    assert Follows(keys, Node(a), To(b)) ==> forall k :: k in keys && k < b ==> !After(k, Node(a));
  }
}
