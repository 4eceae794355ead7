/** One shard of the cache: reference counts, the two lists, and eviction (util/cache.cc). The
    circular lists are sequences, oldest entry first; a handle is known by a number. */
module LruCaches {
  import opened DbFormat
  import opened HandleTables

  datatype Handle = Handle(key: Key, charge: nat, inCache: bool, refs: nat)

  /** `held` counts the references that clients have; `deleted` lists the deleter calls. */
  datatype Cache = Cache(handles: map<Id, Handle>, held: map<Id, nat>, lru: seq<Id>, inUse: seq<Id>, usage: int,
                         index: map<Key, Id>, deleted: seq<Id>, nextId: Id)

  // ---- Lists

  ghost predicate NoDup(ids: seq<Id>) {
    forall i, j :: 0 <= i < j < |ids| ==> ids[i] != ids[j]
  }

  function Remove(ids: seq<Id>, id: Id): seq<Id> {
    if ids == [] then [] else if ids[0] == id then ids[1..] else [ids[0]] + Remove(ids[1..], id)
  }

  lemma {:induction false} RemoveMembers(ids: seq<Id>, id: Id)
    requires NoDup(ids)
    ensures NoDup(Remove(ids, id)) && forall x :: x in Remove(ids, id) <==> x in ids && x != id
  {
    if ids != [] {
      var rest := ids[1..];
      assert ids == [ids[0]] + rest;
      forall x | x in rest
        ensures x != ids[0]
      {
        var j :| 0 <= j < |rest| && rest[j] == x;
        assert ids[j + 1] == x;
      }
      RemoveMembers(rest, id);
      if ids[0] != id {
        FrontStaysDistinct(ids[0], Remove(rest, id));
      }
    }
  }

  /** Removing an entry leaves the others where they are, in their order. */
  lemma {:induction false} RemoveKeepsOrder(ids: seq<Id>, id: Id, i: nat)
    requires i <= |ids| && id !in ids[..i] && (i < |ids| ==> ids[i] == id)
    ensures Remove(ids, id) == if i < |ids| then ids[..i] + ids[i + 1..] else ids
  {
    if 0 < i {
      assert ids[..i][0] == ids[0] && ids[..i] == [ids[0]] + ids[1..][..i - 1];
      RemoveKeepsOrder(ids[1..], id, i - 1);
    }
  }

  lemma FrontStaysDistinct(id: Id, rest: seq<Id>)
    requires NoDup(rest) && id !in rest
    ensures NoDup([id] + rest)
  {
    assert forall i :: 0 <= i < |rest| ==> rest[i] in rest;
  }

  lemma AppendStaysDistinct(ids: seq<Id>, id: Id)
    requires NoDup(ids) && id !in ids
    ensures NoDup(ids + [id]) && forall x :: x in ids + [id] <==> x in ids || x == id
  {
    assert forall i :: 0 <= i < |ids| ==> ids[i] in ids;
  }

  function ChargeOf(handles: map<Id, Handle>, id: Id): nat {
    if id in handles then handles[id].charge else 0
  }

  function Total(handles: map<Id, Handle>, ids: seq<Id>): nat {
    if ids == [] then 0 else ChargeOf(handles, ids[0]) + Total(handles, ids[1..])
  }

  lemma {:induction false} TotalRemove(handles: map<Id, Handle>, ids: seq<Id>, id: Id)
    ensures Total(handles, ids) == Total(handles, Remove(ids, id)) + if id in ids then ChargeOf(handles, id) else 0
  {
    if ids != [] {
      assert ids == [ids[0]] + ids[1..];
      if ids[0] != id {
        TotalRemove(handles, ids[1..], id);
        assert ([ids[0]] + Remove(ids[1..], id))[1..] == Remove(ids[1..], id);
      }
    }
  }

  lemma {:induction false} TotalAppend(handles: map<Id, Handle>, ids: seq<Id>, id: Id)
    ensures Total(handles, ids + [id]) == Total(handles, ids) + ChargeOf(handles, id)
  {
    if ids == [] {
      assert ([] + [id])[1..] == [];
    } else {
      TotalAppend(handles, ids[1..], id);
      assert (ids + [id])[1..] == ids[1..] + [id];
    }
  }

  lemma {:induction false} TotalSame(handles: map<Id, Handle>, handles': map<Id, Handle>, ids: seq<Id>)
    requires forall id :: id in ids ==> ChargeOf(handles, id) == ChargeOf(handles', id)
    ensures Total(handles, ids) == Total(handles', ids)
  {
    if ids != [] {
      TotalSame(handles, handles', ids[1..]);
    }
  }

  // ---- The invariant

  /** The cache's reference and those of the clients add up. */
  ghost predicate RefsOK(c: Cache) {
    forall id :: id in c.handles ==>
      && id in c.held && c.handles[id].refs > 0
      && c.handles[id].refs == c.held[id] + if c.handles[id].inCache then 1 else 0
  }

  /** Each cached entry is on exactly one list, by its references, and no other entry is. */
  ghost predicate ListsOK(c: Cache) {
    && NoDup(c.lru) && NoDup(c.inUse)
    && (forall id :: id in c.lru <==> id in c.handles && c.handles[id].inCache && c.handles[id].refs == 1)
    && (forall id :: id in c.inUse <==> id in c.handles && c.handles[id].inCache && c.handles[id].refs > 1)
  }

  /** The table maps exactly the keys of the cached entries. */
  ghost predicate IndexOK(c: Cache) {
    && (forall id :: id in c.handles && c.handles[id].inCache ==> c.handles[id].key in c.index && c.index[c.handles[id].key] == id)
    && (forall k :: k in c.index ==> c.index[k] in c.handles && c.handles[c.index[k]].inCache && c.handles[c.index[k]].key == k)
  }

  /** Usage is the charge of all cached entries. */
  ghost predicate UsageOK(c: Cache) {
    c.usage == Total(c.handles, c.lru) + Total(c.handles, c.inUse)
  }

  /** The deleter has not run twice for an entry, nor for one that is still there. */
  ghost predicate DeletedOK(c: Cache) {
    NoDup(c.deleted) && forall id :: id in c.deleted ==> id !in c.handles
  }

  /** Every entry that was ever made, in the order of their numbers, is there or was given to the deleter. */
  ghost predicate NumbersOK(c: Cache) {
    forall id: Id :: id in c.handles || id in c.deleted <==> id < c.nextId
  }

  ghost predicate Inv(c: Cache) {
    RefsOK(c) && ListsOK(c) && IndexOK(c) && UsageOK(c) && DeletedOK(c) && NumbersOK(c)
  }

  // ---- What the operations do

  /** Ref. */
  function Ref(c: Cache, id: Id): Cache
    requires id in c.handles
  {
    var h := c.handles[id];
    var moved := if h.refs == 1 && h.inCache
                 then c.(lru := Remove(c.lru, id), inUse := Remove(c.inUse, id) + [id]) else c;
    moved.(handles := c.handles[id := h.(refs := h.refs + 1)])
  }

  /** Unref. */
  function Unref(c: Cache, id: Id): Cache
    requires id in c.handles && c.handles[id].refs > 0
  {
    var h := c.handles[id];
    if h.refs == 1 then c.(handles := c.handles - {id}, deleted := c.deleted + [id])
    else
      var moved := if h.inCache && h.refs == 2
                   then c.(lru := Remove(c.lru, id) + [id], inUse := Remove(c.inUse, id)) else c;
      moved.(handles := c.handles[id := h.(refs := h.refs - 1)])
  }

  /** FinishErase of an entry that the table has given up. */
  function FinishErase(c: Cache, id: Id): Cache
    requires id in c.handles && c.handles[id].refs > 0
  {
    var h := c.handles[id];
    Unref(c.(lru := Remove(c.lru, id), inUse := Remove(c.inUse, id), handles := c.handles[id := h.(inCache := false)],
             usage := c.usage - h.charge), id)
  }

  /** A client takes one more reference, or gives one back. */
  function Taken(c: Cache, id: Id): Cache {
    c.(held := c.held[id := (if id in c.held then c.held[id] else 0) + 1])
  }

  function Given(c: Cache, id: Id): Cache
    requires id in c.held && c.held[id] > 0
  {
    c.(held := c.held[id := c.held[id] - 1])
  }

  /** Moving an entry within the lists, or off them, keeps the sum of the charges. */
  lemma ChargesMove(handles: map<Id, Handle>, handles': map<Id, Handle>, lru: seq<Id>, inUse: seq<Id>, id: Id)
    requires NoDup(lru) && NoDup(inUse) && !(id in lru && id in inUse)
    requires forall x :: x != id ==> ChargeOf(handles, x) == ChargeOf(handles', x)
    ensures Total(handles', Remove(lru, id)) + Total(handles', Remove(inUse, id))
         == Total(handles, lru) + Total(handles, inUse) - if id in lru || id in inUse then ChargeOf(handles, id) else 0
  {
    RemoveMembers(lru, id);
    RemoveMembers(inUse, id);
    TotalRemove(handles, lru, id);
    TotalRemove(handles, inUse, id);
    TotalSame(handles, handles', Remove(lru, id));
    TotalSame(handles, handles', Remove(inUse, id));
  }

  lemma ChargesStay(handles: map<Id, Handle>, handles': map<Id, Handle>, lru: seq<Id>, inUse: seq<Id>)
    requires forall x :: x in lru || x in inUse ==> ChargeOf(handles, x) == ChargeOf(handles', x)
    ensures Total(handles', lru) + Total(handles', inUse) == Total(handles, lru) + Total(handles, inUse)
  {
    TotalSame(handles, handles', lru);
    TotalSame(handles, handles', inUse);
  }

  /** Using an entry that nobody uses makes it the youngest; the others keep their order. */
  lemma UsedIsYoungest(c: Cache, i: nat)
    requires Inv(c) && i < |c.lru|
    ensures var id := c.lru[i];
      && id in c.handles && id in Ref(c, id).handles && Ref(c, id).handles[id].refs > 0
      && Unref(Ref(c, id), id) == c.(lru := c.lru[..i] + c.lru[i + 1..] + [id])
  {
    hide RefsOK, IndexOK, UsageOK, DeletedOK, NumbersOK;
    var id := c.lru[i];
    assert id in c.lru && c.handles[id].refs == 1 && c.handles[id].inCache;
    RemoveKeepsOrder(c.lru, id, i);
    RemoveKeepsOrder(c.inUse, id, |c.inUse|);
    RemoveKeepsOrder(c.inUse + [id], id, |c.inUse|);
    RemoveMembers(c.lru, id);
    var rest := Remove(c.lru, id);
    RemoveKeepsOrder(rest, id, |rest|);
    var back := Unref(Ref(c, id), id);
    assert back.handles == c.handles;
  }

  lemma LookupKeeps(c: Cache, id: Id)
    requires Inv(c) && id in c.handles
    ensures Inv(Taken(Ref(c, id), id))
  {
    LookupLists(c, id);
  }

  lemma LookupLists(c: Cache, id: Id)
    requires ListsOK(c) && UsageOK(c) && id in c.handles && c.handles[id].refs > 0
    ensures ListsOK(Ref(c, id)) && UsageOK(Ref(c, id))
  {
    var c' := Ref(c, id);
    RemoveMembers(c.lru, id);
    RemoveMembers(c.inUse, id);
    if c.handles[id].refs == 1 && c.handles[id].inCache {
      AppendStaysDistinct(Remove(c.inUse, id), id);
      ChargesMove(c.handles, c'.handles, c.lru, c.inUse, id);
      TotalAppend(c'.handles, Remove(c.inUse, id), id);
    } else {
      ChargesStay(c.handles, c'.handles, c.lru, c.inUse);
    }
  }

  lemma ReleaseKeeps(c: Cache, id: Id)
    requires Inv(c) && id in c.handles && c.held[id] > 0
    ensures Inv(Given(Unref(c, id), id))
  {
    if c.handles[id].refs == 1 {
      LastReleaseKeeps(c, id);
    } else {
      EarlyReleaseKeeps(c, id);
    }
  }

  lemma LastReleaseKeeps(c: Cache, id: Id)
    requires Inv(c) && id in c.handles && c.held[id] > 0 && c.handles[id].refs == 1
    ensures Inv(Given(Unref(c, id), id))
  {
    AppendStaysDistinct(c.deleted, id);
    ChargesStay(c.handles, c.handles - {id}, c.lru, c.inUse);
  }

  lemma EarlyReleaseKeeps(c: Cache, id: Id)
    requires Inv(c) && id in c.handles && c.held[id] > 0 && c.handles[id].refs > 1
    ensures Inv(Given(Unref(c, id), id))
  {
    ReleaseLists(c, id);
  }

  lemma ReleaseLists(c: Cache, id: Id)
    requires ListsOK(c) && UsageOK(c) && id in c.handles && c.handles[id].refs > 1
    ensures ListsOK(Unref(c, id)) && UsageOK(Unref(c, id))
  {
    var c' := Unref(c, id);
    RemoveMembers(c.lru, id);
    RemoveMembers(c.inUse, id);
    if c.handles[id].refs == 2 && c.handles[id].inCache {
      AppendStaysDistinct(Remove(c.lru, id), id);
      ChargesMove(c.handles, c'.handles, c.lru, c.inUse, id);
      TotalAppend(c'.handles, Remove(c.lru, id), id);
    } else {
      ChargesStay(c.handles, c'.handles, c.lru, c.inUse);
    }
  }

  /** FinishErase in one step. */
  function Erased(c: Cache, id: Id): Cache
    requires id in c.handles && c.handles[id].refs > 0
  {
    var h := c.handles[id];
    c.(lru := Remove(c.lru, id), inUse := Remove(c.inUse, id), usage := c.usage - h.charge,
       handles := if h.refs == 1 then c.handles - {id} else c.handles[id := h.(inCache := false, refs := h.refs - 1)],
       deleted := if h.refs == 1 then c.deleted + [id] else c.deleted, index := c.index - {h.key})
  }

  lemma FinishEraseIs(c: Cache, id: Id)
    requires id in c.handles && c.handles[id].refs > 0
    ensures FinishErase(c, id).(index := c.index - {c.handles[id].key}) == Erased(c, id)
  {
    var h := c.handles[id];
    assert c.handles[id := h.(inCache := false)] - {id} == c.handles - {id};
  }

  lemma EraseKeeps(c: Cache, id: Id)
    requires Inv(c) && id in c.handles && c.handles[id].inCache
    ensures Inv(Erased(c, id))
  {
    EraseLists(c, id);
    EraseIndex(c, id);
    if c.handles[id].refs == 1 {
      AppendStaysDistinct(c.deleted, id);
    }
  }

  lemma EraseLists(c: Cache, id: Id)
    requires ListsOK(c) && UsageOK(c) && id in c.handles && c.handles[id].inCache && c.handles[id].refs > 0
    ensures ListsOK(Erased(c, id)) && UsageOK(Erased(c, id))
  {
    var c' := Erased(c, id);
    RemoveMembers(c.lru, id);
    RemoveMembers(c.inUse, id);
    ChargesMove(c.handles, c'.handles, c.lru, c.inUse, id);
  }

  lemma EraseIndex(c: Cache, id: Id)
    requires IndexOK(c) && id in c.handles && c.handles[id].inCache && c.handles[id].refs > 0
    ensures IndexOK(Erased(c, id))
  {
  }

  /** A reference taken puts a cached entry on the in-use list; no deleter runs. */
  lemma TakingUses(c: Cache, id: Id)
    requires Inv(c) && id in c.handles
    ensures var c' := Taken(Ref(c, id), id);
      && id !in c'.lru && (id in c'.inUse <==> c.handles[id].inCache)
      && c'.deleted == c.deleted && c'.usage == c.usage
      && c'.lru == if c.held[id] == 0 then Remove(c.lru, id) else c.lru
  {
    if id !in c.lru {
      NotInList(c.lru, id);
    }
    RemoveMembers(c.lru, id);
  }

  /** A client's last reference given back makes a cached entry the newest evictable one, and runs
      the deleter of an entry that is no longer cached; nothing else does. */
  lemma GivingBack(c: Cache, id: Id)
    requires Inv(c) && id in c.handles && c.held[id] > 0
    ensures var c' := Given(Unref(c, id), id); var last, cached := c.held[id] == 1, c.handles[id].inCache;
      && c'.usage == c.usage
      && c'.lru == (if last && cached then c.lru + [id] else c.lru)
      && c'.inUse == (if last && cached then Remove(c.inUse, id) else c.inUse)
      && c'.deleted == (if last && !cached then c.deleted + [id] else c.deleted)
      && (id in c'.handles <==> !(last && !cached))
  {
    NotInList(c.lru, id);
  }

  /** Erasing runs the deleter at once for an entry that no client holds; a held one only leaves the
      cache, and its last holder's release runs the deleter. */
  lemma ErasingFrees(c: Cache, id: Id)
    requires Inv(c) && id in c.handles && c.handles[id].inCache
    ensures var c' := Erased(c, id);
      && id !in c'.lru && id !in c'.inUse && c.handles[id].key !in c'.index
      && c'.usage == c.usage - c.handles[id].charge
      && c'.deleted == (if c.held[id] == 0 then c.deleted + [id] else c.deleted)
      && (id in c'.handles <==> c.held[id] > 0)
      && (c.held[id] > 0 ==> !c'.handles[id].inCache && c'.handles[id].refs == c.held[id])
  {
    RemoveMembers(c.lru, id);
    RemoveMembers(c.inUse, id);
  }

  /** A new entry goes into the table and onto the in-use list. */
  function Stored(c: Cache, id: Id, key: Key, charge: nat): Cache {
    c.(handles := c.handles[id := Handle(key, charge, true, 2)], held := c.held[id := 1], inUse := c.inUse + [id],
       usage := c.usage + charge, index := c.index[key := id], nextId := id + 1)
  }

  /** With a capacity of zero nothing is cached. */
  function Uncached(c: Cache, id: Id, key: Key, charge: nat): Cache {
    c.(handles := c.handles[id := Handle(key, charge, false, 1)], held := c.held[id := 1], nextId := id + 1)
  }

  lemma StoreKeeps(c: Cache, id: Id, key: Key, charge: nat)
    requires Inv(c) && id == c.nextId && key !in c.index
    ensures Inv(Stored(c, id, key, charge))
  {
    hide ListsOK, UsageOK;
    StoreLists(c, id, key, charge);
  }

  lemma StoreLists(c: Cache, id: Id, key: Key, charge: nat)
    requires ListsOK(c) && UsageOK(c) && id !in c.handles
    ensures ListsOK(Stored(c, id, key, charge)) && UsageOK(Stored(c, id, key, charge))
  {
    var c' := Stored(c, id, key, charge);
    AppendStaysDistinct(c.inUse, id);
    ChargesStay(c.handles, c'.handles, c.lru, c.inUse);
    TotalAppend(c'.handles, c.inUse, id);
  }

  lemma UncachedKeeps(c: Cache, id: Id, key: Key, charge: nat)
    requires Inv(c) && id == c.nextId
    ensures Inv(Uncached(c, id, key, charge))
  {
    ChargesStay(c.handles, Uncached(c, id, key, charge).handles, c.lru, c.inUse);
  }

  lemma {:induction false} RemoveAppend(ids: seq<Id>, id: Id, last: Id)
    requires id != last
    ensures Remove(ids + [last], id) == Remove(ids, id) + [last]
  {
    if ids == [] {
      assert [] + [last] == [last] && [last][1..] == [];
    } else {
      RemoveAppend(ids[1..], id, last);
      assert (ids + [last])[1..] == ids[1..] + [last];
    }
  }

  /** The `n` oldest unreferenced entries were given to the deleter, in that order, and have left the
      cache and its table; everything else is as before. */
  ghost predicate Evicted(c: Cache, c': Cache, n: nat) {
    n <= |c.lru| && EvictedLists(c, c', n) && EvictedHandles(c, c', c.lru[..n]) && EvictedIndex(c, c', c.lru[..n])
  }

  ghost predicate EvictedLists(c: Cache, c': Cache, n: nat)
    requires n <= |c.lru|
  {
    && c'.lru == c.lru[n..] && c'.deleted == c.deleted + c.lru[..n]
    && c'.inUse == c.inUse && c'.held == c.held && c'.nextId == c.nextId
    && c'.usage == c.usage - Total(c.handles, c.lru[..n])
  }

  ghost predicate EvictedHandles(c: Cache, c': Cache, gone: seq<Id>) {
    && (forall id :: id in c'.handles <==> id in c.handles && id !in gone)
    && (forall id :: id in c'.handles ==> c'.handles[id] == c.handles[id])
  }

  ghost predicate EvictedIndex(c: Cache, c': Cache, gone: seq<Id>) {
    && (forall k :: k in c'.index <==> k in c.index && c.index[k] !in gone)
    && (forall k :: k in c'.index ==> c'.index[k] == c.index[k])
  }

  lemma OldestIsCached(c: Cache)
    requires Inv(c) && c.lru != []
    ensures var e := c.lru[0];
      && e in c.handles && c.handles[e].inCache && c.handles[e].refs == 1 && e !in c.inUse
      && c.handles[e].key in c.index && c.index[c.handles[e].key] == e
    ensures forall k :: k in c.index && c.index[k] == c.lru[0] <==> k == c.handles[c.lru[0]].key
  {
    assert c.lru[0] in c.lru;
  }

  lemma OldestGoes(before: Cache, c: Cache, n: nat)
    requires Inv(c) && c.lru != [] && Evicted(before, c, n)
    ensures var e := c.lru[0];
      && e in c.handles && c.handles[e].refs > 0
      && c.handles[e].key in c.index && c.index[c.handles[e].key] == e
    ensures c.usage == before.usage - Total(before.handles, before.lru[..n])
    ensures n < |before.lru| && Evicted(before, Erased(c, c.lru[0]), n + 1)
    ensures |Erased(c, c.lru[0]).lru| == |before.lru| - n - 1
  {
    var oldest := c.lru[0];
    OldestIsCached(c);
    hide Inv, Total, EvictedHandles, EvictedIndex, Erased;
    var gone := before.lru[..n];
    assert before.lru[..n + 1] == gone + [oldest];
    HandleGoes(before, c, gone);
    KeyGoes(before, c, gone);
    ListGoes(before, c, n);
  }

  lemma ListGoes(before: Cache, c: Cache, n: nat)
    requires c.lru != [] && c.lru[0] in c.handles && c.handles[c.lru[0]].refs == 1 && c.lru[0] !in c.inUse
    requires n <= |before.lru| && EvictedLists(before, c, n) && EvictedHandles(before, c, before.lru[..n])
    ensures n < |before.lru| && EvictedLists(before, Erased(c, c.lru[0]), n + 1)
    ensures |Erased(c, c.lru[0]).lru| == |before.lru| - n - 1
  {
    var oldest := c.lru[0];
    NotInList(c.inUse, oldest);
    TotalAppend(before.handles, before.lru[..n], oldest);
    assert before.lru[..n + 1] == before.lru[..n] + [oldest];
    assert Remove(c.lru, oldest) == before.lru[n + 1..];
    assert ChargeOf(before.handles, oldest) == c.handles[oldest].charge;
  }

  lemma HandleGoes(before: Cache, c: Cache, gone: seq<Id>)
    requires c.lru != [] && c.lru[0] in c.handles && c.handles[c.lru[0]].refs == 1 && EvictedHandles(before, c, gone)
    ensures EvictedHandles(before, Erased(c, c.lru[0]), gone + [c.lru[0]])
  {
  }

  lemma KeyGoes(before: Cache, c: Cache, gone: seq<Id>)
    requires c.lru != [] && c.lru[0] in c.handles && c.handles[c.lru[0]].refs == 1 && EvictedIndex(before, c, gone)
    requires forall k :: k in c.index && c.index[k] == c.lru[0] <==> k == c.handles[c.lru[0]].key
    ensures EvictedIndex(before, Erased(c, c.lru[0]), gone + [c.lru[0]])
  {
  }

  /** With fewer than the `n` oldest entries gone, the usage is above the capacity. */
  ghost predicate Needed(c: Cache, capacity: nat, n: nat)
    requires n <= |c.lru|
  {
    forall m: nat :: m < n ==> c.usage - Total(c.handles, c.lru[..m]) > capacity
  }

  lemma OneMoreNeeded(c: Cache, capacity: nat, n: nat)
    requires n < |c.lru| && Needed(c, capacity, n) && c.usage - Total(c.handles, c.lru[..n]) > capacity
    ensures Needed(c, capacity, n + 1)
  {
  }

  lemma NothingEvicted(c: Cache, capacity: nat)
    ensures Evicted(c, c, 0) && Needed(c, capacity, 0)
  {
    assert c.lru[..0] == [] && c.lru[0..] == c.lru;
  }

  lemma EmptyInv(c: Cache)
    requires c.handles.Keys == {} && c.index.Keys == {} && c.lru == c.inUse == [] && c.deleted == [] && c.usage == 0
    requires c.nextId == 0
    ensures Inv(c)
  {
    assert forall id :: id in c.handles ==> id in c.handles.Keys;
    assert forall k :: k in c.index ==> k in c.index.Keys;
  }

  class LRUCache {
    const capacity: nat
    const table: HandleTable
    var usage: int
    var lru: seq<Id>
    var inUse: seq<Id>
    var handles: map<Id, Handle>
    var nextId: Id
    ghost var held: map<Id, nat>
    ghost var deleted: seq<Id>

    ghost function State(): Cache
      reads this, table
    {
      Cache(handles, held, lru, inUse, usage, table.contents, deleted, nextId)
    }

    ghost predicate Valid()
      reads this, table
    {
      Inv(State()) && table.Valid()
    }

    constructor (capacity: nat, hash: Hash)
      ensures Valid() && fresh(table) && handles == map[] && this.capacity == capacity && table.hash == hash
    {
      this.capacity, usage, lru, inUse, handles, nextId, held, deleted := capacity, 0, [], [], map[], 0, map[], [];
      table := new HandleTable(hash);
      new;
      EmptyInv(State());
    }

    method LruRemove(e: Id)
      modifies `lru, `inUse
      ensures lru == Remove(old(lru), e) && inUse == Remove(old(inUse), e)
    {
      lru, inUse := Remove(lru, e), Remove(inUse, e);
    }

    method DoRef(e: Id)
      requires e in handles
      modifies `lru, `inUse, `handles
      ensures State() == Ref(old(State()), e)
    {
      var h := handles[e];
      if h.refs == 1 && h.inCache {
        LruRemove(e);
        inUse := inUse + [e];
      }
      handles := handles[e := h.(refs := h.refs + 1)];
    }

    method DoUnref(e: Id)
      requires e in handles && handles[e].refs > 0
      modifies `lru, `inUse, `handles, `deleted
      ensures State() == Unref(old(State()), e)
    {
      var h := handles[e].(refs := handles[e].refs - 1);
      if h.refs == 0 {
        deleted := deleted + [e];
        handles := handles - {e};
      } else {
        if h.inCache && h.refs == 1 {
          LruRemove(e);
          lru := lru + [e];
        }
        handles := handles[e := h];
      }
    }

    /** An entry that the table has given up loses its place on the lists and the cache's reference. */
    method DoFinishErase(e: Id)
      requires e in handles && handles[e].refs > 0
      modifies `lru, `inUse, `handles, `deleted, `usage
      ensures State() == FinishErase(old(State()), e)
    {
      LruRemove(e);
      handles := handles[e := handles[e].(inCache := false)];
      usage := usage - handles[e].charge;
      DoUnref(e);
    }

    method Lookup(key: Key) returns (r: Option<Id>)
      requires Valid()
      modifies this
      ensures Valid() && (r.Some? <==> key in old(table.contents))
      ensures r.Some? ==> r.value in old(handles) && old(handles[r.value].key) == key
                          && State() == Taken(Ref(old(State()), r.value), r.value)
      ensures r.None? ==> State() == old(State())
    {
      hide ListsOK, UsageOK, DeletedOK, NumbersOK;
      r := table.Lookup(key, table.hash(key));
      if r.Some? {
        LookupKeeps(State(), r.value);
        DoRef(r.value);
        held := held[r.value := held[r.value] + 1];
      }
    }

    method Release(e: Id)
      requires Valid() && e in handles && held[e] > 0
      modifies this
      ensures Valid() && State() == Given(Unref(old(State()), e), e)
    {
      ReleaseKeeps(State(), e);
      DoUnref(e);
      held := held[e := held[e] - 1];
    }

    /** Take an entry off the table, if it is there, and finish erasing it. */
    method TakeOff(key: Key) returns (erased: Option<Id>)
      requires table.Valid()
      requires key in table.contents ==> table.contents[key] in handles && handles[table.contents[key]].refs > 0
                                         && handles[table.contents[key]].key == key
      modifies `lru, `inUse, `handles, `deleted, `usage, table
      ensures table.Valid() && erased == if key in old(table.contents) then Some(old(table.contents[key])) else None
      ensures State() == if erased.Some? then Erased(old(State()), erased.value) else old(State())
    {
      erased := table.Remove(key, table.hash(key));
      if erased.Some? {
        FinishEraseIs(old(State()), erased.value);
        DoFinishErase(erased.value);
      } else {
        assert old(table.contents) - {key} == old(table.contents);
      }
    }

    method Erase(key: Key) returns (erased: Option<Id>)
      requires Valid()
      modifies this, table
      ensures Valid() && erased == if key in old(table.contents) then Some(old(table.contents[key])) else None
      ensures State() == if erased.Some? then Erased(old(State()), erased.value) else old(State())
    {
      ghost var was := State();
      erased := TakeOff(key);
      if erased.Some? {
        EraseKeeps(was, erased.value);
      }
    }

    /** Evict the oldest unreferenced entries until the usage fits or none is left, and no more than that. */
    method Evict(force: bool) returns (ghost n: nat)
      requires Valid()
      modifies this, table
      ensures Valid() && (lru == [] || (!force && usage <= capacity))
      ensures |lru| == |old(lru)| - n && Evicted(old(State()), State(), n)
      ensures !force ==> Needed(old(State()), capacity, n)
    {
      ghost var before := State();
      NothingEvicted(before, capacity);
      n := 0;
      hide Inv, Evicted, Needed, Erased, Total;
      while (force || usage > capacity) && lru != []
        invariant Valid() && |lru| == |before.lru| - n && Evicted(before, State(), n)
        invariant !force ==> Needed(before, capacity, n)
        decreases |before.lru| - n
      {
        OldestGoes(before, State(), n);
        if !force {
          OneMoreNeeded(before, capacity, n);
        }
        var erased := Erase(handles[lru[0]].key);
        n := n + 1;
      }
    }

    method Prune()
      requires Valid()
      modifies this, table
      ensures Valid() && Evicted(old(State()), State(), |old(lru)|)
    {
      hide Inv, Evicted;
      ghost var n := Evict(true);
    }

    /** Insert. The new entry replaces one with the same key; then the oldest unreferenced entries
        go until the usage fits or nothing is evictable. */
    method Insert(key: Key, charge: nat) returns (e: Id, ghost replaced: Option<Id>, ghost n: nat)
      requires Valid()
      modifies this, table
      ensures Valid() && e == old(nextId) && e !in old(handles)
      ensures replaced == if capacity > 0 && key in old(table.contents) then Some(old(table.contents[key])) else None
      ensures var placed := Placed(old(State()), key, charge, capacity, replaced);
        Evicted(placed, State(), n) && Needed(placed, capacity, n)
      ensures lru == [] || usage <= capacity
      ensures e in handles && e in held && held[e] == 1
    {
      e, replaced := Place(key, charge);
      PlacedFacts(old(State()), key, charge, capacity, replaced);
      n := Evict(false);
    }

    /** The part of Insert before the eviction. */
    method Place(key: Key, charge: nat) returns (e: Id, ghost replaced: Option<Id>)
      requires Valid()
      modifies this, table
      ensures Valid() && e == old(nextId) && e !in old(handles)
      ensures replaced == if capacity > 0 && key in old(table.contents) then Some(old(table.contents[key])) else None
      ensures State() == Placed(old(State()), key, charge, capacity, replaced)
    {
      ghost var was := State();
      if capacity > 0 {
        e, replaced := Store(key, charge);
        StoredInv(was, key, charge, replaced);
      } else {
        e, replaced := nextId, None;
        nextId := nextId + 1;
        handles, held := handles[e := Handle(key, charge, false, 1)], held[e := 1];
        UncachedKeeps(was, e, key, charge);
      }
    }

    method Store(key: Key, charge: nat) returns (e: Id, ghost replaced: Option<Id>)
      requires table.Valid() && nextId !in handles
      requires key in table.contents ==> table.contents[key] in handles && handles[table.contents[key]].refs > 0
                                         && handles[table.contents[key]].key == key
      modifies this, table
      ensures table.Valid() && e == old(nextId)
      ensures replaced == if key in old(table.contents) then Some(old(table.contents[key])) else None
      ensures State() == Stored(if replaced.Some? then Erased(old(State()), replaced.value) else old(State()), e, key, charge)
    {
      hide Remove, Total;
      ghost var was := State();
      e, nextId := nextId, nextId + 1;
      handles, held := handles[e := Handle(key, charge, true, 2)], held[e := 1];
      inUse := inUse + [e];
      usage := usage + charge;
      var previous := table.Insert(key, table.hash(key), e);
      replaced := previous;
      if previous.Some? {
        ReplacedIs(was, e, key, charge, previous.value);
        DoFinishErase(previous.value);
      }
    }
  }

  function Placed(c: Cache, key: Key, charge: nat, capacity: nat, replaced: Option<Id>): Cache
    requires replaced.Some? ==> replaced.value in c.handles && c.handles[replaced.value].refs > 0
  {
    if capacity == 0 then Uncached(c, c.nextId, key, charge)
    else Stored(if replaced.Some? then Erased(c, replaced.value) else c, c.nextId, key, charge)
  }

  /** The new entry is there, and not on the list of evictable entries. */
  lemma PlacedFacts(c: Cache, key: Key, charge: nat, capacity: nat, replaced: Option<Id>)
    requires Inv(c) && (replaced.Some? ==> replaced.value in c.handles && c.handles[replaced.value].refs > 0)
    requires Inv(Placed(c, key, charge, capacity, replaced)) && (capacity == 0 ==> replaced.None?)
    ensures var c', e := Placed(c, key, charge, capacity, replaced), c.nextId;
      && e in c'.handles && e !in c'.lru && e in c'.held && c'.held[e] == 1
      && c'.handles[e].key == key && c'.handles[e].charge == charge && (c'.handles[e].inCache <==> capacity > 0)
      && c'.lru == if replaced.Some? then Remove(c.lru, replaced.value) else c.lru
  {
  }

  lemma StoredInv(c: Cache, key: Key, charge: nat, replaced: Option<Id>)
    requires Inv(c) && replaced == if key in c.index then Some(c.index[key]) else None
    ensures Inv(Stored(if replaced.Some? then Erased(c, replaced.value) else c, c.nextId, key, charge))
  {
    if replaced.Some? {
      EraseKeeps(c, replaced.value);
      StoreKeeps(Erased(c, replaced.value), c.nextId, key, charge);
    } else {
      StoreKeeps(c, c.nextId, key, charge);
    }
  }

  /** Erasing the entry with the same key after storing the new one comes to the same as before. */
  lemma ReplacedIs(c: Cache, e: Id, key: Key, charge: nat, previous: Id)
    requires previous in c.handles && c.handles[previous].refs > 0 && c.handles[previous].key == key && e != previous
    ensures FinishErase(Stored(c, e, key, charge), previous) == Stored(Erased(c, previous), e, key, charge)
  {
    RemoveAppend(c.inUse, previous, e);
    var h, n := c.handles[previous], Handle(key, charge, true, 2);
    assert c.handles[e := n][previous := h.(inCache := false)] - {previous} == (c.handles - {previous})[e := n];
    assert c.handles[e := n][previous := h.(inCache := false)][previous := h.(inCache := false, refs := h.refs - 1)]
        == c.handles[previous := h.(inCache := false, refs := h.refs - 1)][e := n];
    assert (c.index - {key})[key := e] == c.index[key := e];
  }

  lemma {:induction false} NotInList(ids: seq<Id>, id: Id)
    requires id !in ids
    ensures Remove(ids, id) == ids
  {
    if ids != [] {
      NotInList(ids[1..], id);
    }
  }
}
