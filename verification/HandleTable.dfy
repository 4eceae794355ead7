/** The cache's hash table: chains of entries, doubled when there are more entries than chains (util/cache.cc). */
module HandleTables {
  import opened DbFormat

  type Key = string
  type Id = nat

  /** An entry in a chain: a handle, with its key and the key's hash. */
  datatype Node = Node(key: Key, hash: nat, id: Id)

  type Hash = Key -> nat

  predicate PowerOfTwo(n: nat) {
    n == 1 || (n > 0 && n % 2 == 0 && PowerOfTwo(n / 2))
  }

  /** The bitwise and of two numbers. */
  function And(x: nat, y: nat): nat {
    if x == 0 || y == 0 then 0 else (if x % 2 == 1 && y % 2 == 1 then 1 else 0) + 2 * And(x / 2, y / 2)
  }

  /** Masking a hash with a power of two less one is taking the remainder. */
  lemma {:induction false} MaskIsRemainder(h: nat, length: nat)
    requires PowerOfTwo(length)
    ensures And(h, length - 1) == h % length
  {
    if length > 1 {
      var half := length / 2;
      MaskIsRemainder(h / 2, half);
      AndOdd(h, half);
      Halves(h, half);
    }
  }

  lemma AndOdd(h: nat, half: nat)
    requires half > 0
    ensures And(h, 2 * half - 1) == 2 * And(h / 2, half - 1) + h % 2
  {
    assert (2 * half - 1) / 2 == half - 1 && (2 * half - 1) % 2 == 1;
  }

  lemma Halves(h: nat, half: nat)
    requires half > 0
    ensures h % (2 * half) == 2 * (h / 2 % half) + h % 2
  {
    var q, r := Divide(h / 2, half);
    var d, e := Divide(h, 2 * half);
    Combine(h, half, q, r, d, e);
  }

  lemma Combine(h: nat, half: nat, q: nat, r: nat, d: nat, e: nat)
    requires h / 2 == half * q + r && r < half && h == 2 * half * d + e && e < 2 * half
    ensures e == 2 * r + h % 2
  {
    assert 2 * half * q == 2 * (half * q);
    SameRemainder(2 * half, q, 2 * r + h % 2, d, e);
  }

  lemma Divide(x: nat, m: nat) returns (q: nat, r: nat)
    requires m > 0
    ensures x == m * q + r && r == x % m < m
  {
    q, r := x / m, x % m;
  }

  lemma SameRemainder(m: nat, q: nat, r: nat, d: nat, e: nat)
    requires m * q + r == m * d + e && r < m && e < m
    ensures r == e
  {
    if q < d {
      Apart(m, q, d);
    } else if d < q {
      Apart(m, d, q);
    }
  }

  lemma {:induction false} Apart(m: nat, a: nat, b: nat)
    requires a < b
    ensures m * a + m <= m * b
  {
    if a + 1 < b {
      Apart(m, a, b - 1);
    }
    assert m * b == m * (b - 1) + m;
  }

  /** A power of two is followed by its double. */
  lemma {:induction false} NextPower(a: nat, b: nat)
    requires PowerOfTwo(a) && PowerOfTwo(b) && a < b
    ensures 2 * a <= b
  {
    if a > 1 {
      NextPower(a / 2, b / 2);
    }
  }

  /** A chain holds exactly the entries of `m` that hash into its bucket, once each. */
  ghost predicate ChainOK(chain: seq<Node>, m: map<Key, Id>, hash: Hash, length: nat, bucket: nat)
    requires length > 0
  {
    && (forall n :: n in chain ==> n.key in m && m[n.key] == n.id && n.hash == hash(n.key) && n.hash % length == bucket)
    && (forall k :: k in m && hash(k) % length == bucket ==> exists n :: n in chain && n.key == k)
    && (forall i, j :: 0 <= i < j < |chain| ==> chain[i].key != chain[j].key)
  }

  ghost predicate ChainsOK(list: seq<seq<Node>>, m: map<Key, Id>, hash: Hash) {
    |list| > 0 && forall b: nat :: b < |list| ==> ChainOK(list[b], m, hash, |list|, b)
  }

  /** Changing one key changes one chain. */
  lemma ChainsAfter(list: seq<seq<Node>>, m: map<Key, Id>, m': map<Key, Id>, key: Key, hash: Hash, chain: seq<Node>)
    requires ChainsOK(list, m, hash) && forall k :: k != key ==> (k in m <==> k in m') && (k in m ==> m'[k] == m[k])
    requires ChainOK(chain, m', hash, |list|, hash(key) % |list|)
    ensures ChainsOK(list[hash(key) % |list| := chain], m', hash)
  {
    var list' := list[hash(key) % |list| := chain];
    forall b: nat | b < |list|
      ensures ChainOK(list'[b], m', hash, |list|, b)
    {
      assert ChainOK(list[b], m, hash, |list|, b);
    }
  }

  lemma ChainReplaces(chain: seq<Node>, m: map<Key, Id>, node: Node, hash: Hash, length: nat, at: nat)
    requires length > 0 && ChainOK(chain, m, hash, length, hash(node.key) % length)
    requires at < |chain| && chain[at].key == node.key && node.hash == hash(node.key)
    ensures ChainOK(chain[at := node], m[node.key := node.id], hash, length, hash(node.key) % length)
  {
    var chain' := chain[at := node];
    forall n | n in chain'
      ensures n == node || (n in chain && n.key != node.key)
    {
      var i :| 0 <= i < |chain'| && chain'[i] == n;
      assert i < at || i == at || at < i;
    }
    forall k | k in m && hash(k) % length == hash(node.key) % length
      ensures exists n :: n in chain' && n.key == k
    {
      var n :| n in chain && n.key == k;
      var i :| 0 <= i < |chain| && chain[i] == n;
      assert chain'[i].key == k;
    }
    assert chain'[at] == node;
  }

  lemma ChainGrows(chain: seq<Node>, m: map<Key, Id>, node: Node, hash: Hash, length: nat, front: bool)
    requires length > 0 && ChainOK(chain, m, hash, length, hash(node.key) % length)
    requires node.key !in m && node.hash == hash(node.key)
    ensures ChainOK(if front then [node] + chain else chain + [node], m[node.key := node.id], hash, length, hash(node.key) % length)
  {
    var chain' := if front then [node] + chain else chain + [node];
    assert forall n :: n in chain' <==> n in chain || n == node;
    StillDistinct(chain, node, front);
    forall k | k in m && hash(k) % length == hash(node.key) % length
      ensures exists n :: n in chain' && n.key == k
    {
      var n :| n in chain && n.key == k;
      assert n in chain';
    }
  }

  lemma StillDistinct(chain: seq<Node>, node: Node, front: bool)
    requires forall i, j :: 0 <= i < j < |chain| ==> chain[i].key != chain[j].key
    requires forall n :: n in chain ==> n.key != node.key
    ensures var chain' := if front then [node] + chain else chain + [node];
      forall i, j :: 0 <= i < j < |chain'| ==> chain'[i].key != chain'[j].key
  {
    assert forall i :: 0 <= i < |chain| ==> chain[i] in chain;
  }

  lemma ChainShrinks(chain: seq<Node>, m: map<Key, Id>, key: Key, hash: Hash, length: nat, bucket: nat, at: nat)
    requires length > 0 && ChainOK(chain, m, hash, length, bucket)
    requires at < |chain| && chain[at].key == key
    ensures ChainOK(chain[..at] + chain[at + 1..], m - {key}, hash, length, bucket)
  {
    var chain' := chain[..at] + chain[at + 1..];
    WithoutOne(chain, at);
    forall k | k in m && k != key && hash(k) % length == bucket
      ensures exists n :: n in chain' && n.key == k
    {
      var n :| n in chain && n.key == k;
      assert n in chain';
    }
  }

  lemma WithoutOne(chain: seq<Node>, at: nat)
    requires at < |chain| && forall i, j :: 0 <= i < j < |chain| ==> chain[i].key != chain[j].key
    ensures var chain' := chain[..at] + chain[at + 1..];
      && (forall n :: n in chain' <==> n in chain && n.key != chain[at].key)
      && (forall i, j :: 0 <= i < j < |chain'| ==> chain'[i].key != chain'[j].key)
  {
    var chain' := chain[..at] + chain[at + 1..];
    forall n
      ensures n in chain' <==> n in chain && n.key != chain[at].key
    {
      if n in chain {
        var i :| 0 <= i < |chain| && chain[i] == n;
        assert i < at ==> chain'[i] == n;
        assert i > at ==> chain'[i - 1] == n;
      }
    }
  }

  class HandleTable {
    const hash: Hash
    var length: nat
    var elems: nat
    var list: seq<seq<Node>>
    ghost var contents: map<Key, Id>

    ghost predicate Valid()
      reads this
    {
      length == |list| >= 4 && PowerOfTwo(length) && elems == |contents| <= length && ChainsOK(list, contents, hash)
    }

    constructor (hash: Hash)
      ensures Valid() && contents == map[] && this.hash == hash
    {
      this.hash, length, elems, contents := hash, 4, 0, map[];
      assert PowerOfTwo(2) && PowerOfTwo(4);
      list := seq(4, _ => []);
    }

    /** FindPointer: the place of the key in its chain, or the end of the chain. */
    method FindPointer(key: Key, h: nat) returns (bucket: nat, at: nat)
      requires Valid() && h == hash(key)
      ensures bucket == h % length && at <= |list[bucket]|
      ensures at < |list[bucket]| <==> key in contents
      ensures at < |list[bucket]| ==> list[bucket][at].key == key && list[bucket][at].id == contents[key]
    {
      bucket := And(h, length - 1);
      MaskIsRemainder(h, length);
      at := 0;
      assert ChainOK(list[bucket], contents, hash, length, bucket);
      while at < |list[bucket]| && (list[bucket][at].hash != h || list[bucket][at].key != key)
        invariant at <= |list[bucket]|
        invariant forall i :: 0 <= i < at ==> list[bucket][i].key != key
      {
        assert list[bucket][at] in list[bucket];
        at := at + 1;
      }
      if at < |list[bucket]| {
        assert list[bucket][at] in list[bucket];
      }
    }

    method Lookup(key: Key, h: nat) returns (r: Option<Id>)
      requires Valid() && h == hash(key)
      ensures r == if key in contents then Some(contents[key]) else None
    {
      var bucket, at := FindPointer(key, h);
      r := if at < |list[bucket]| then Some(list[bucket][at].id) else None;
    }

    /** Insert, replacing an entry with the same key. */
    method Insert(key: Key, h: nat, id: Id) returns (replaced: Option<Id>)
      requires Valid() && h == hash(key)
      modifies this
      ensures Valid() && contents == old(contents)[key := id]
      ensures length == if |contents| > old(length) then 2 * old(length) else old(length)
      ensures replaced == if key in old(contents) then Some(old(contents[key])) else None
    {
      var bucket, at := FindPointer(key, h);
      var node := Node(key, h, id);
      assert ChainOK(list[bucket], contents, hash, length, bucket);
      ghost var was := contents;
      contents := contents[key := id];
      if at < |list[bucket]| {
        replaced := Some(list[bucket][at].id);
        ChainReplaces(list[bucket], was, node, hash, length, at);
        ChainsAfter(list, was, contents, key, hash, list[bucket][at := node]);
        list := list[bucket := list[bucket][at := node]];
        assert contents.Keys == was.Keys;
        SameSize(was, contents);
      } else {
        replaced := None;
        ChainGrows(list[bucket], was, node, hash, length, false);
        ChainsAfter(list, was, contents, key, hash, list[bucket] + [node]);
        list := list[bucket := list[bucket] + [node]];
        OneMore(was, key, id);
        elems := elems + 1;
        if elems > length {
          Resize();
        }
      }
    }

    method Remove(key: Key, h: nat) returns (removed: Option<Id>)
      requires Valid() && h == hash(key)
      modifies this
      ensures Valid() && contents == old(contents) - {key}
      ensures removed == if key in old(contents) then Some(old(contents[key])) else None
    {
      var bucket, at := FindPointer(key, h);
      if at < |list[bucket]| {
        assert ChainOK(list[bucket], contents, hash, length, bucket);
        removed := Some(list[bucket][at].id);
        ghost var was := contents;
        ChainShrinks(list[bucket], was, key, hash, length, bucket, at);
        ChainsAfter(list, was, was - {key}, key, hash, list[bucket][..at] + list[bucket][at + 1..]);
        list := list[bucket := list[bucket][..at] + list[bucket][at + 1..]];
        contents := was - {key};
        OneLess(was, key);
        elems := elems - 1;
      } else {
        removed := None;
        assert contents - {key} == contents;
      }
    }

    /** Move every entry into a table of twice the length. */
    method Resize()
      requires length == |list| >= 4 && PowerOfTwo(length) && elems == |contents| == length + 1
      requires ChainsOK(list, contents, hash)
      modifies `length, `list
      ensures Valid() && length == 2 * old(length)
    {
      var newLength := 4;
      assert PowerOfTwo(2) && PowerOfTwo(4);
      while newLength < elems
        invariant PowerOfTwo(newLength) && 4 <= newLength <= 2 * length
        decreases elems - newLength
      {
        newLength := newLength * 2;
      }
      NextPower(length, newLength);
      var newList: seq<seq<Node>> := seq(newLength, _ => []);
      ghost var done: map<Key, Id> := map[];
      for i := 0 to length
        invariant length == old(length) && list == old(list)
        invariant |newList| == newLength && ChainsOK(newList, done, hash)
        invariant forall k :: k in done <==> k in contents && hash(k) % length < i
        invariant forall k :: k in done ==> done[k] == contents[k]
      {
        assert ChainOK(list[i], contents, hash, length, i);
        newList, done := MoveChain(list[i], i, newList, done);
      }
      assert done == contents;
      list, length := newList, newLength;
    }

    method MoveChain(chain: seq<Node>, ghost i: nat, newList: seq<seq<Node>>, ghost done: map<Key, Id>)
      returns (newList': seq<seq<Node>>, ghost done': map<Key, Id>)
      requires length > 0 && ChainOK(chain, contents, hash, length, i) && ChainsOK(newList, done, hash) && PowerOfTwo(|newList|)
      requires forall k :: k in done <==> k in contents && hash(k) % length < i
      requires forall k :: k in done ==> done[k] == contents[k]
      ensures |newList'| == |newList| && ChainsOK(newList', done', hash)
      ensures forall k :: k in done' <==> k in contents && hash(k) % length < i + 1
      ensures forall k :: k in done' ==> done'[k] == contents[k]
    {
      hide And, PowerOfTwo;
      newList', done' := newList, done;
      for j := 0 to |chain|
        invariant |newList'| == |newList| && ChainsOK(newList', done', hash)
        invariant forall k :: k in done' <==> k in done || exists n :: n in chain[..j] && n.key == k
        invariant forall k :: k in done' ==> k in contents && done'[k] == contents[k]
      {
        var h := chain[j];
        assert h in chain && chain[..j + 1] == chain[..j] + [h];
        NotSeen(chain, j);
        var b := And(h.hash, |newList'| - 1);
        MaskIsRemainder(h.hash, |newList'|);
        assert ChainOK(newList'[b], done', hash, |newList'|, b);
        ChainGrows(newList'[b], done', h, hash, |newList'|, true);
        ChainsAfter(newList', done', done'[h.key := h.id], h.key, hash, [h] + newList'[b]);
        newList' := newList'[b := [h] + newList'[b]];
        done' := done'[h.key := h.id];
      }
      assert chain[..|chain|] == chain;
    }
  }

  lemma NotSeen(chain: seq<Node>, j: nat)
    requires j < |chain| && forall a, b :: 0 <= a < b < |chain| ==> chain[a].key != chain[b].key
    ensures forall n :: n in chain[..j] ==> n.key != chain[j].key
  {
    forall n | n in chain[..j]
      ensures n.key != chain[j].key
    {
      var a :| 0 <= a < j && chain[a] == n;
    }
  }

  lemma SameSize(m: map<Key, Id>, m': map<Key, Id>)
    requires m.Keys == m'.Keys
    ensures |m| == |m'|
  {
    assert |m| == |m.Keys| && |m'| == |m'.Keys|;
  }

  lemma OneMore(m: map<Key, Id>, key: Key, id: Id)
    requires key !in m
    ensures |m[key := id]| == |m| + 1
  {
    assert m[key := id].Keys == m.Keys + {key};
  }

  lemma OneLess(m: map<Key, Id>, key: Key)
    requires key in m
    ensures |m - {key}| == |m| - 1
  {
    assert (m - {key}).Keys == m.Keys - {key};
  }
}
