/** One shard of the block and table cache: reference counts, two lists, a hash table and a budget. */
module LRUCaches {
  import opened Entries
  import opened HandleTables

  datatype LRUHandle = LRUHandle(key: Key, hash: nat, value: string, charge: nat, inCache: bool, refs: nat)

  /** `lru` and `inUse` run from the oldest to the newest.  `held` counts the handles that clients have
      and have not yet released; `deleted` lists the calls of deleters; `table` is what the hash table
      holds. */
  datatype Shard = Shard(
    capacity: nat,
    usage: int,
    handles: map<HandleId, LRUHandle>,
    lru: seq<HandleId>,
    inUse: seq<HandleId>,
    made: nat,
    deleted: seq<HandleId>,
    held: multiset<HandleId>,
    table: map<(Key, nat), HandleId>)

  // ----- Lists -----

  ghost predicate Once(list: seq<HandleId>) {
    forall i, j :: 0 <= i < j < |list| ==> list[i] != list[j]
  }

  /** A list with one element unlinked. */
  function Unlink(list: seq<HandleId>, e: HandleId): seq<HandleId> {
    if list == [] then []
    else if list[0] == e then list[1..]
    else [list[0]] + Unlink(list[1..], e)
  }

  lemma {:induction false} UnlinkMembers(list: seq<HandleId>, e: HandleId)
    requires Once(list)
    ensures Once(Unlink(list, e))
    ensures forall x :: x in Unlink(list, e) <==> x in list && x != e
    ensures list != [] && list[0] == e ==> Unlink(list, e) == list[1..]
  {
    if list != [] {
      var first, rest := list[0], list[1..];
      assert list == [first] + rest && first !in rest;
      if first != e {
        UnlinkMembers(rest, e);
        hide Unlink;
        OnceCons(first, Unlink(rest, e));
        assert Unlink(list, e) == [first] + Unlink(rest, e) by {
          UnlinkCons(first, rest, e);
        }
      }
    }
  }

  lemma UnlinkCons(first: HandleId, rest: seq<HandleId>, e: HandleId)
    requires first != e
    ensures Unlink([first] + rest, e) == [first] + Unlink(rest, e)
  {
    assert ([first] + rest)[1..] == rest;
  }

  lemma OnceCons(first: HandleId, rest: seq<HandleId>)
    requires Once(rest) && first !in rest
    ensures Once([first] + rest)
  {
  }

  function Total(handles: map<HandleId, LRUHandle>, list: seq<HandleId>): nat {
    if list == [] then 0
    else (if list[0] in handles then handles[list[0]].charge else 0) + Total(handles, list[1..])
  }

  lemma {:induction false} TotalUnlink(handles: map<HandleId, LRUHandle>, list: seq<HandleId>, e: HandleId)
    requires e in list && e in handles
    ensures Total(handles, Unlink(list, e)) == Total(handles, list) - handles[e].charge
  {
    if list[0] != e {
      TotalUnlink(handles, list[1..], e);
    }
  }

  lemma {:induction false} TotalAppend(handles: map<HandleId, LRUHandle>, list: seq<HandleId>, e: HandleId)
    requires e in handles
    ensures Total(handles, list + [e]) == Total(handles, list) + handles[e].charge
  {
    if list == [] {
      assert list + [e] == [e];
    } else {
      assert (list + [e])[1..] == list[1..] + [e];
      TotalAppend(handles, list[1..], e);
    }
  }

  lemma {:induction false} TotalSame(a: map<HandleId, LRUHandle>, b: map<HandleId, LRUHandle>, list: seq<HandleId>)
    requires forall x :: x in list ==> x in a && x in b && a[x].charge == b[x].charge
    ensures Total(a, list) == Total(b, list)
  {
    if list != [] {
      TotalSame(a, b, list[1..]);
    }
  }

  // ----- The invariant -----

  function KeyOf(h: LRUHandle): (Key, nat) {
    (h.key, h.hash)
  }

  /** The hash table holds exactly the handles in the cache, but for a stray one on its way out. */
  ghost predicate TableHolds(handles: map<HandleId, LRUHandle>, table: map<(Key, nat), HandleId>, stray: Option<HandleId>) {
    && (forall k :: k in table ==> table[k] in handles && handles[table[k]].inCache && k == KeyOf(handles[table[k]]) && stray != Some(table[k]))
    && (forall e :: e in handles && handles[e].inCache && stray != Some(e) ==> KeyOf(handles[e]) in table && table[KeyOf(handles[e])] == e)
    && (stray.Some? ==> stray.value in handles && handles[stray.value].inCache)
  }

  ghost predicate TableInvariant(s: Shard, stray: Option<HandleId>) {
    TableHolds(s.handles, s.table, stray)
  }

  /** A handle counts one reference for each client that has it and one for the cache. */
  ghost predicate RefsInvariant(s: Shard) {
    && (forall e :: e in s.handles ==> s.handles[e].refs == s.held[e] + (if s.handles[e].inCache then 1 else 0) && s.handles[e].refs > 0)
    && forall e :: e in s.held ==> e in s.handles
  }

  /** A handle in the cache is on exactly one list, and which one its references tell. */
  ghost predicate ListsInvariant(s: Shard) {
    && Once(s.lru) && Once(s.inUse)
    && (forall e :: e in s.lru <==> e in s.handles && s.handles[e].inCache && s.handles[e].refs == 1)
    && (forall e :: e in s.inUse <==> e in s.handles && s.handles[e].inCache && s.handles[e].refs >= 2)
  }

  /** Every handle ever made is still there or has been deleted, once. */
  ghost predicate LifeInvariant(s: Shard) {
    && Once(s.deleted)
    && forall e: HandleId :: (e in s.handles || e in s.deleted <==> e < s.made) && !(e in s.handles && e in s.deleted)
  }

  ghost predicate Invariant(s: Shard, stray: Option<HandleId>) {
    && TableInvariant(s, stray) && RefsInvariant(s) && ListsInvariant(s) && LifeInvariant(s)
    && s.usage == Total(s.handles, s.lru) + Total(s.handles, s.inUse)
  }

  // ----- What the operations do -----

  function WithRefs(s: Shard, e: HandleId, refs: nat): Shard
    requires e in s.handles
  {
    s.(handles := s.handles[e := s.handles[e].(refs := refs)])
  }

  /** A client gets the handle; it leaves the LRU list if it was idle. */
  function AfterRef(s: Shard, e: HandleId): Shard
    requires e in s.handles
  {
    var h := s.handles[e];
    var t := WithRefs(s, e, h.refs + 1).(held := s.held + multiset{e});
    if h.refs == 1 && h.inCache then t.(lru := Unlink(s.lru, e), inUse := s.inUse + [e]) else t
  }

  /** A reference is dropped: the last one deletes the handle, the last one of a client makes it the
      newest idle one. */
  function AfterUnref(s: Shard, e: HandleId): Shard
    requires e in s.handles && s.handles[e].refs > 0
  {
    var h := s.handles[e];
    if h.refs == 1 then s.(handles := s.handles - {e}, deleted := s.deleted + [e])
    else
      var t := WithRefs(s, e, h.refs - 1);
      if h.inCache && h.refs == 2 then t.(inUse := Unlink(s.inUse, e), lru := s.lru + [e]) else t
  }

  function AfterRelease(s: Shard, e: HandleId): Shard
    requires e in s.handles && s.handles[e].refs > 0
  {
    AfterUnref(s.(held := s.held - multiset{e}), e)
  }

  /** A handle that is no longer in the hash table leaves the cache. */
  function AfterFinishErase(s: Shard, e: HandleId): Shard
    requires e in s.handles && s.handles[e].refs > 0
  {
    var h := s.handles[e];
    var t := s.(lru := if h.refs == 1 then Unlink(s.lru, e) else s.lru,
                inUse := if h.refs == 1 then s.inUse else Unlink(s.inUse, e),
                handles := s.handles[e := h.(inCache := false)], usage := s.usage - h.charge);
    AfterUnref(t, e)
  }

  lemma RefKeepsLists(s: Shard, stray: Option<HandleId>, e: HandleId)
    requires Invariant(s, stray) && e in s.handles
    ensures ListsInvariant(AfterRef(s, e))
  {
    hide TableInvariant, LifeInvariant, Total;
    UnlinkMembers(s.lru, e);
    hide Unlink;
    OnceAppend(s.inUse, e);
  }


  lemma RefKeepsRefs(s: Shard, stray: Option<HandleId>, e: HandleId)
    requires Invariant(s, stray) && e in s.handles
    ensures RefsInvariant(AfterRef(s, e))
  {
    hide TableInvariant, LifeInvariant, ListsInvariant, Total, Unlink;
  }

  lemma OnceAppend(list: seq<HandleId>, e: HandleId)
    requires Once(list)
    ensures e !in list ==> Once(list + [e])
    ensures forall x :: x in list + [e] <==> x in list || x == e
  {
  }

  lemma RefKeepsUsage(s: Shard, stray: Option<HandleId>, e: HandleId)
    requires Invariant(s, stray) && e in s.handles
    ensures var t := AfterRef(s, e); t.usage == Total(t.handles, t.lru) + Total(t.handles, t.inUse)
  {
    hide TableInvariant, LifeInvariant, RefsInvariant, Unlink, Total;
    var t := AfterRef(s, e);
    TotalSame(s.handles, t.handles, s.lru);
    TotalSame(s.handles, t.handles, s.inUse);
    if e in s.lru {
      TotalUnlink(t.handles, s.lru, e);
      TotalAppend(t.handles, s.inUse, e);
    }
  }

  lemma RefKeepsTable(s: Shard, stray: Option<HandleId>, e: HandleId)
    requires Invariant(s, stray) && e in s.handles
    ensures TableInvariant(AfterRef(s, e), stray)
  {
    hide Total, Unlink, ListsInvariant, RefsInvariant, LifeInvariant;
  }

  lemma RefKeepsLife(s: Shard, stray: Option<HandleId>, e: HandleId)
    requires Invariant(s, stray) && e in s.handles
    ensures LifeInvariant(AfterRef(s, e))
  {
    hide Total, Unlink, ListsInvariant, RefsInvariant;
  }

  lemma RefKeeps(s: Shard, stray: Option<HandleId>, e: HandleId)
    requires Invariant(s, stray) && e in s.handles
    ensures Invariant(AfterRef(s, e), stray)
  {
    RefKeepsLists(s, stray, e);
    RefKeepsRefs(s, stray, e);
    RefKeepsUsage(s, stray, e);
    RefKeepsTable(s, stray, e);
    RefKeepsLife(s, stray, e);
    hide Total, Unlink, ListsInvariant, RefsInvariant, TableInvariant, LifeInvariant;
  }

  lemma ReleaseKeepsLists(s: Shard, e: HandleId)
    requires Invariant(s, None) && e in s.held
    ensures ListsInvariant(AfterRelease(s, e))
  {
    hide TableInvariant, LifeInvariant, Total;
    UnlinkMembers(s.inUse, e);
    hide Unlink;
    OnceAppend(s.lru, e);
  }


  lemma ReleaseKeepsRefs(s: Shard, e: HandleId)
    requires Invariant(s, None) && e in s.held
    ensures RefsInvariant(AfterRelease(s, e))
  {
    hide TableInvariant, LifeInvariant, ListsInvariant, Total, Unlink;
  }

  lemma ReleaseKeepsUsage(s: Shard, e: HandleId)
    requires Invariant(s, None) && e in s.held
    ensures var t := AfterRelease(s, e); t.usage == Total(t.handles, t.lru) + Total(t.handles, t.inUse)
  {
    hide TableInvariant, LifeInvariant, Unlink, Total;
    var t := AfterRelease(s, e);
    if s.handles[e].refs == 1 {
      TotalSame(s.handles, t.handles, s.lru);
      TotalSame(s.handles, t.handles, s.inUse);
    } else {
      TotalSame(s.handles, t.handles, s.lru);
      TotalSame(s.handles, t.handles, s.inUse);
      if s.handles[e].inCache && s.handles[e].refs == 2 {
        TotalUnlink(t.handles, s.inUse, e);
        TotalAppend(t.handles, s.lru, e);
      }
    }
  }

  lemma ReleaseKeepsTable(s: Shard, e: HandleId)
    requires Invariant(s, None) && e in s.held
    ensures TableInvariant(AfterRelease(s, e), None)
  {
    assert e in s.handles && s.handles[e].refs > 0;
    assert s.handles[e].refs == 1 ==> !s.handles[e].inCache;
    assert TableInvariant(s, None);
    hide Invariant, TableHolds, Unlink;
    SameTable(s.handles, AfterRelease(s, e).handles, s.table);
  }

  /** The table depends only on the handles in the cache and their keys. */
  lemma SameTable(before: map<HandleId, LRUHandle>, after: map<HandleId, LRUHandle>, table: map<(Key, nat), HandleId>)
    requires TableHolds(before, table, None)
    requires forall x :: x in before && before[x].inCache ==> x in after && after[x].inCache && KeyOf(after[x]) == KeyOf(before[x])
    requires forall x :: x in after && after[x].inCache ==> x in before && before[x].inCache
    ensures TableHolds(after, table, None)
  {
  }

  lemma ReleaseKeepsLife(s: Shard, e: HandleId)
    requires Invariant(s, None) && e in s.held
    ensures LifeInvariant(AfterRelease(s, e))
  {
    OnceAppend(s.deleted, e);
    assert e in s.handles && s.handles[e].refs > 0;
    assert s.handles[e].refs == 1 ==> !s.handles[e].inCache;
    hide Total, Unlink, ListsInvariant, RefsInvariant;
  }

  lemma ReleaseKeeps(s: Shard, e: HandleId)
    requires Invariant(s, None) && e in s.held
    ensures Invariant(AfterRelease(s, e), None)
  {
    ReleaseKeepsLists(s, e);
    ReleaseKeepsRefs(s, e);
    ReleaseKeepsUsage(s, e);
    ReleaseKeepsTable(s, e);
    ReleaseKeepsLife(s, e);
    hide Total, Unlink, ListsInvariant, RefsInvariant, TableInvariant, LifeInvariant;
  }

  /** Taking one handle out of the cache takes it off its list. */
  lemma OffItsList(s: Shard, e: HandleId, t: Shard)
    requires ListsInvariant(s) && e in s.handles && s.handles[e].inCache && s.handles[e].refs > 0
    requires t.lru == (if s.handles[e].refs == 1 then Unlink(s.lru, e) else s.lru)
    requires t.inUse == (if s.handles[e].refs == 1 then s.inUse else Unlink(s.inUse, e))
    requires forall x :: x != e ==> (x in t.handles <==> x in s.handles) && (x in s.handles ==> t.handles[x] == s.handles[x])
    requires e in t.handles ==> !t.handles[e].inCache
    ensures ListsInvariant(t)
  {
    hide Unlink, Once;
    UnlinkMembers(s.lru, e);
    UnlinkMembers(s.inUse, e);
    assert forall x :: x in t.lru <==> x != e && x in s.lru;
    assert forall x :: x in t.inUse <==> x != e && x in s.inUse;
  }

  lemma FinishEraseKeepsLists(s: Shard, e: HandleId)
    requires Invariant(s, Some(e))
    ensures ListsInvariant(AfterFinishErase(s, e))
  {
    assert e in s.handles && s.handles[e].inCache && s.handles[e].refs > 0;
    hide LifeInvariant, Total, TableInvariant, RefsInvariant, Unlink, ListsInvariant;
    OffItsList(s, e, AfterFinishErase(s, e));
  }

  lemma FinishEraseKeepsRefs(s: Shard, e: HandleId)
    requires Invariant(s, Some(e))
    ensures RefsInvariant(AfterFinishErase(s, e))
  {
    hide LifeInvariant, ListsInvariant, Total, Unlink;
    assert e in s.handles && s.handles[e].inCache;
  }

  lemma FinishEraseKeepsUsage(s: Shard, e: HandleId)
    requires Invariant(s, Some(e))
    ensures var t := AfterFinishErase(s, e); t.usage == Total(t.handles, t.lru) + Total(t.handles, t.inUse)
  {
    FinishEraseKeepsLists(s, e);
    assert e in s.handles && s.handles[e].inCache;
    hide LifeInvariant, TableInvariant, Total;
    var t := AfterFinishErase(s, e);
    UnlinkMembers(s.lru, e);
    UnlinkMembers(s.inUse, e);
    hide Unlink;
    if s.handles[e].refs == 1 {
      TotalUnlink(s.handles, s.lru, e);
    } else {
      TotalUnlink(s.handles, s.inUse, e);
    }
    TotalSame(s.handles, t.handles, t.lru);
    TotalSame(s.handles, t.handles, t.inUse);
  }

  /** Without the stray handle the table holds exactly the handles in the cache. */
  lemma StrayTable(before: map<HandleId, LRUHandle>, after: map<HandleId, LRUHandle>, table: map<(Key, nat), HandleId>, e: HandleId)
    requires TableHolds(before, table, Some(e))
    requires forall x :: x != e ==> (x in after <==> x in before) && (x in before ==> after[x] == before[x])
    requires e in after ==> !after[e].inCache
    ensures TableHolds(after, table, None)
  {
  }

  lemma FinishEraseKeepsTable(s: Shard, e: HandleId)
    requires Invariant(s, Some(e))
    ensures TableInvariant(AfterFinishErase(s, e), None)
  {
    assert s.handles[e].refs > 0 && TableInvariant(s, Some(e));
    hide Invariant, TableHolds, Unlink;
    StrayTable(s.handles, AfterFinishErase(s, e).handles, s.table, e);
  }

  lemma FinishEraseKeepsLife(s: Shard, e: HandleId)
    requires Invariant(s, Some(e))
    ensures LifeInvariant(AfterFinishErase(s, e))
  {
    OnceAppend(s.deleted, e);
    assert s.handles[e].refs > 0;
    hide Total, Unlink, ListsInvariant, RefsInvariant;
  }

  lemma FinishEraseKeeps(s: Shard, e: HandleId)
    requires Invariant(s, Some(e))
    ensures Invariant(AfterFinishErase(s, e), None)
  {
    FinishEraseKeepsLists(s, e);
    FinishEraseKeepsRefs(s, e);
    FinishEraseKeepsUsage(s, e);
    FinishEraseKeepsTable(s, e);
    FinishEraseKeepsLife(s, e);
    hide Total, Unlink, ListsInvariant, RefsInvariant, TableInvariant, LifeInvariant;
  }

  // ----- Making, erasing and evicting -----

  /** A new handle, with one reference for the client and, unless caching is off, one for the cache. */
  function AfterMake(s: Shard, key: Key, hash: nat, value: string, charge: nat): Shard {
    var e := s.made;
    var t := s.(made := e + 1, held := s.held + multiset{e});
    if s.capacity > 0 then
      t.(handles := s.handles[e := LRUHandle(key, hash, value, charge, true, 2)], inUse := s.inUse + [e],
         usage := s.usage + charge, table := s.table[(key, hash) := e])
    else
      t.(handles := s.handles[e := LRUHandle(key, hash, value, charge, false, 1)])
  }

  /** The handle that a new one displaces from the hash table. */
  function Displaced(s: Shard, key: Key, hash: nat): Option<HandleId> {
    if s.capacity > 0 && (key, hash) in s.table then Some(s.table[(key, hash)]) else None
  }

  lemma MakeKeepsLists(s: Shard, key: Key, hash: nat, value: string, charge: nat)
    requires Invariant(s, None)
    ensures var t := AfterMake(s, key, hash, value, charge); ListsInvariant(t) && LifeInvariant(t)
  {
    hide TableInvariant, Total;
    OnceAppend(s.inUse, s.made);
  }

  lemma MakeKeepsTable(s: Shard, key: Key, hash: nat, value: string, charge: nat)
    requires Invariant(s, None)
    ensures TableInvariant(AfterMake(s, key, hash, value, charge), Displaced(s, key, hash))
  {
    if s.capacity > 0 {
      PutKeepsTable(s.handles, s.table, s.made, LRUHandle(key, hash, value, charge, true, 2));
    }
  }

  lemma PutKeepsTable(handles: map<HandleId, LRUHandle>, table: map<(Key, nat), HandleId>, e: HandleId, h: LRUHandle)
    requires TableHolds(handles, table, None) && e !in handles && h.inCache
    ensures TableHolds(handles[e := h], table[KeyOf(h) := e], if KeyOf(h) in table then Some(table[KeyOf(h)]) else None)
  {
    var handles', table', k0 := handles[e := h], table[KeyOf(h) := e], KeyOf(h);
    forall k | k in table' && k != k0 ensures k in table && table'[k] == table[k] && table[k] in handles && table[k] != e {
      assert KeyOf(handles[table[k]]) == k;
    }
  }

  lemma MakeKeepsRefs(s: Shard, key: Key, hash: nat, value: string, charge: nat)
    requires Invariant(s, None)
    ensures RefsInvariant(AfterMake(s, key, hash, value, charge))
  {
    assert s.made !in s.handles && RefsInvariant(s);
    hide Invariant, ListsInvariant, TableInvariant, LifeInvariant, Total;
  }

  lemma MakeKeepsUsage(s: Shard, key: Key, hash: nat, value: string, charge: nat)
    requires Invariant(s, None)
    ensures var t := AfterMake(s, key, hash, value, charge); t.usage == Total(t.handles, t.lru) + Total(t.handles, t.inUse)
  {
    hide TableInvariant, RefsInvariant, Total;
    var t := AfterMake(s, key, hash, value, charge);
    TotalSame(s.handles, t.handles, s.lru);
    TotalSame(s.handles, t.handles, s.inUse);
    TotalAppend(t.handles, s.inUse, s.made);
  }

  lemma MakeKeeps(s: Shard, key: Key, hash: nat, value: string, charge: nat)
    requires Invariant(s, None)
    ensures Invariant(AfterMake(s, key, hash, value, charge), Displaced(s, key, hash))
  {
    MakeKeepsLists(s, key, hash, value, charge);
    MakeKeepsTable(s, key, hash, value, charge);
    MakeKeepsRefs(s, key, hash, value, charge);
    MakeKeepsUsage(s, key, hash, value, charge);
    hide TableInvariant, RefsInvariant, ListsInvariant, LifeInvariant, Total;
  }

  function OutOfTable(s: Shard, k: (Key, nat)): Shard {
    s.(table := s.table - {k})
  }

  lemma OutOfTableKeeps(s: Shard, k: (Key, nat))
    requires Invariant(s, None) && k in s.table
    ensures Invariant(OutOfTable(s, k), Some(s.table[k]))
    ensures s.table[k] in s.handles && s.handles[s.table[k]].refs > 0 && KeyOf(s.handles[s.table[k]]) == k
  {
    var t := OutOfTable(s, k);
    forall o | o in t.table ensures t.table[o] != s.table[k] {
      assert o in s.table && o == KeyOf(s.handles[s.table[o]]);
    }
    assert TableInvariant(t, Some(s.table[k]));
    hide ListsInvariant, Total, TableInvariant;
  }

  ghost function AfterErase(s: Shard, k: (Key, nat)): (t: Shard)
    requires Invariant(s, None)
    ensures Invariant(t, None)
  {
    if k in s.table then
      OutOfTableKeeps(s, k);
      FinishEraseKeeps(OutOfTable(s, k), s.table[k]);
      AfterFinishErase(OutOfTable(s, k), s.table[k])
    else s
  }

  /** The key is gone from the table and nothing else is; its handle is out of the cache, and deleted unless
      a client still has it; no other handle is touched. */
  ghost predicate Erased(s: Shard, t: Shard, k: (Key, nat)) {
    && t.table == s.table - {k} && t.held == s.held && t.made == s.made && t.capacity == s.capacity
    && (k !in s.table ==> t == s)
    && (k in s.table ==>
          var e := s.table[k];
          && e in s.handles && t.usage == s.usage - s.handles[e].charge
          && (s.handles[e].refs == 1 ==> t.handles == s.handles - {e} && t.deleted == s.deleted + [e])
          && (s.handles[e].refs > 1 ==>
                t.handles == s.handles[e := s.handles[e].(inCache := false, refs := s.handles[e].refs - 1)] && t.deleted == s.deleted))
  }

  /** What leaving the cache changes besides the lists. */
  ghost predicate Left(s: Shard, t: Shard, e: HandleId)
    requires e in s.handles
  {
    && t.table == s.table && t.held == s.held && t.made == s.made && t.capacity == s.capacity
    && t.usage == s.usage - s.handles[e].charge
    && (s.handles[e].refs == 1 ==> t.handles == s.handles - {e} && t.deleted == s.deleted + [e])
    && (s.handles[e].refs > 1 ==>
          t.handles == s.handles[e := s.handles[e].(inCache := false, refs := s.handles[e].refs - 1)] && t.deleted == s.deleted)
  }

  lemma FinishEraseIsExact(s: Shard, e: HandleId)
    requires e in s.handles && s.handles[e].refs > 0
    ensures Left(s, AfterFinishErase(s, e), e)
  {
    hide Unlink;
    var h := s.handles[e].(inCache := false);
    assert s.handles[e := h] - {e} == s.handles - {e};
  }

  lemma EraseIsExact(s: Shard, k: (Key, nat))
    requires Invariant(s, None)
    ensures Erased(s, AfterErase(s, k), k)
  {
    hide Invariant, Unlink, AfterFinishErase;
    if k in s.table {
      OutOfTableKeeps(s, k);
      FinishEraseIsExact(OutOfTable(s, k), s.table[k]);
    } else {
      assert s.table - {k} == s.table;
    }
  }

  /** What a new handle changes. */
  ghost predicate Made(s: Shard, t: Shard, k: (Key, nat)) {
    && t.table == (if s.capacity > 0 then s.table[k := s.made] else s.table)
    && t.made == s.made + 1 && t.held == s.held + multiset{s.made} && t.capacity == s.capacity
  }

  ghost predicate LeavesAlone(s: Shard, t: Shard, e: HandleId) {
    e in s.handles ==> e in t.handles && t.handles[e] == s.handles[e]
  }

  lemma HandleIsMade(s: Shard, key: Key, hash: nat, value: string, charge: nat)
    requires s.made !in s.handles
    ensures Made(s, AfterMake(s, key, hash, value, charge), (key, hash))
    ensures forall e: HandleId :: LeavesAlone(s, AfterMake(s, key, hash, value, charge), e)
  {
  }

  lemma OneIsDisplaced(s: Shard, stray: Option<HandleId>)
    requires Invariant(s, stray)
    ensures var t := AfterDisplacing(s, stray);
            && t.table == s.table && t.made == s.made && t.held == s.held && t.capacity == s.capacity
            && forall e: HandleId :: stray != Some(e) ==> LeavesAlone(s, t, e)
  {
    hide Invariant, AfterFinishErase;
    if stray.Some? {
      StrayIsThere(s, stray.value);
      FinishEraseIsExact(s, stray.value);
    }
  }

  /** Making a handle takes the key over from the handle that had it, and touches no other handle. */
  lemma MakeIsExact(s: Shard, key: Key, hash: nat, value: string, charge: nat)
    requires Invariant(s, None)
    ensures var t := AfterMaking(s, key, hash, value, charge);
            Made(s, t, (key, hash)) && forall e: HandleId :: Displaced(s, key, hash) != Some(e) ==> LeavesAlone(s, t, e)
  {
    MakeKeeps(s, key, hash, value, charge);
    assert s.made !in s.handles;
    hide Invariant, AfterMake, AfterDisplacing, Displaced;
    HandleIsMade(s, key, hash, value, charge);
    OneIsDisplaced(AfterMake(s, key, hash, value, charge), Displaced(s, key, hash));
  }

  /** Erasing the oldest idle handle deletes it and nothing else. */
  lemma OldestGoes(s: Shard)
    requires Invariant(s, None) && s.lru != []
    ensures var e := s.lru[0];
            && e in s.handles && KeyOf(s.handles[e]) in s.table && s.table[KeyOf(s.handles[e])] == e
            && var t := AfterErase(s, KeyOf(s.handles[e]));
               && t.lru == s.lru[1..] && t.inUse == s.inUse && t.deleted == s.deleted + [e]
               && t.handles == s.handles - {e} && t.usage == s.usage - s.handles[e].charge
               && t.capacity == s.capacity && t.held == s.held && t.made == s.made
               && t.table == s.table - {KeyOf(s.handles[e])}
  {
    assert s.lru[0] in s.lru;
    assert s.handles[s.lru[0]].inCache;
    OutOfTableKeeps(s, KeyOf(s.handles[s.lru[0]]));
    hide ListsInvariant, RefsInvariant, TableInvariant, LifeInvariant, Total;
    assert s.handles[s.lru[0]].refs == 1 by {
      assert ListsInvariant(s);
    }
  }

  /** While the budget is exceeded, the oldest idle handle goes. */
  ghost function AfterEvict(s: Shard): (t: Shard)
    requires Invariant(s, None)
    ensures Invariant(t, None)
    decreases |s.lru|
  {
    if s.usage > s.capacity && s.lru != [] then
      OldestGoes(s);
      AfterEvict(AfterErase(s, KeyOf(s.handles[s.lru[0]])))
    else s
  }

  /** Eviction takes the oldest idle handles, in order and no more of them than needed: it stops as soon
      as the budget is met, and fails to meet it only if everything left is in use. */
  lemma {:induction false} EvictTakesOldest(s: Shard) returns (k: nat)
    requires Invariant(s, None)
    ensures k <= |s.lru|
    ensures var t := AfterEvict(s);
            && t.lru == s.lru[k..] && t.deleted == s.deleted + s.lru[..k] && t.inUse == s.inUse && t.held == s.held
            && t.usage == s.usage - Total(s.handles, s.lru[..k])
            && (t.usage <= t.capacity || t.lru == [])
    ensures k > 0 ==> s.usage - Total(s.handles, s.lru[..k - 1]) > s.capacity
    decreases |s.lru|
  {
    hide Invariant, AfterErase;
    if s.usage > s.capacity && s.lru != [] {
      OldestGoes(s);
      var e := s.lru[0];
      var s1 := AfterErase(s, KeyOf(s.handles[e]));
      var k1 := EvictTakesOldest(s1);
      k := k1 + 1;
      EvictedTotal(s, s1, k1);
      assert s.lru[..k] == [e] + s.lru[1..][..k1];
      assert s.deleted + [e] + s.lru[1..][..k1] == s.deleted + s.lru[..k];
      if k1 > 0 {
        EvictedTotal(s, s1, k1 - 1);
      } else {
        assert s.lru[..0] == [];
      }
    } else {
      k := 0;
      assert s.lru[..0] == [];
    }
  }

  lemma EvictedTotal(s: Shard, s1: Shard, k: nat)
    requires Invariant(s, None) && s.lru != [] && s1.lru == s.lru[1..] && s1.handles == s.handles - {s.lru[0]} && k <= |s1.lru|
    ensures s.lru[0] in s.handles
    ensures Total(s.handles, s.lru[..k + 1]) == s.handles[s.lru[0]].charge + Total(s1.handles, s1.lru[..k])
  {
    assert s.lru[..k + 1][1..] == s1.lru[..k];
    assert s.lru[0] in s.lru;
    forall x | x in s1.lru[..k] ensures x in s.handles && x in s1.handles {
      assert x in s.lru[1..] && x != s.lru[0];
    }
    TotalSame(s.handles, s1.handles, s1.lru[..k]);
  }

  ghost function AfterPrune(s: Shard): (t: Shard)
    requires Invariant(s, None)
    ensures Invariant(t, None)
    decreases |s.lru|
  {
    if s.lru != [] then
      OldestGoes(s);
      AfterPrune(AfterErase(s, KeyOf(s.handles[s.lru[0]])))
    else s
  }

  /** Pruning deletes every idle handle and leaves those in use alone. */
  lemma {:induction false} PruneTakesIdle(s: Shard)
    requires Invariant(s, None)
    ensures var t := AfterPrune(s);
            t.lru == [] && t.inUse == s.inUse && t.deleted == s.deleted + s.lru && t.held == s.held
    decreases |s.lru|
  {
    hide Invariant, AfterErase;
    if s.lru != [] {
      OldestGoes(s);
      PruneTakesIdle(AfterErase(s, KeyOf(s.handles[s.lru[0]])));
      assert s.lru == [s.lru[0]] + s.lru[1..];
    }
  }

  /** Insert: make the handle, finish erasing the one it displaces, then evict. */
  ghost function AfterInsert(s: Shard, key: Key, hash: nat, value: string, charge: nat): (t: Shard)
    requires Invariant(s, None)
    ensures Invariant(t, None)
  {
    AfterEvict(AfterMaking(s, key, hash, value, charge))
  }

  ghost function AfterMaking(s: Shard, key: Key, hash: nat, value: string, charge: nat): (t: Shard)
    requires Invariant(s, None)
    ensures Invariant(t, None)
  {
    MakeKeeps(s, key, hash, value, charge);
    AfterDisplacing(AfterMake(s, key, hash, value, charge), Displaced(s, key, hash))
  }

  ghost function AfterDisplacing(s: Shard, stray: Option<HandleId>): (t: Shard)
    requires Invariant(s, stray)
    ensures Invariant(t, None)
  {
    if stray.Some? then
      StrayIsThere(s, stray.value);
      FinishEraseKeeps(s, stray.value);
      AfterFinishErase(s, stray.value)
    else s
  }

  lemma StrayIsThere(s: Shard, e: HandleId)
    requires Invariant(s, Some(e))
    ensures e in s.handles && s.handles[e].refs > 0
  {
  }

  /** Eviction leaves a handle in use alone: it can still be looked up. */
  lemma {:induction false} EvictKeepsInUse(s: Shard, e: HandleId)
    requires Invariant(s, None) && e in s.handles && e !in s.lru
    ensures var t := AfterEvict(s);
            && e in t.handles && t.handles[e] == s.handles[e]
            && (s.handles[e].inCache ==> KeyOf(s.handles[e]) in t.table && t.table[KeyOf(s.handles[e])] == e)
    decreases |s.lru|
  {
    if s.usage > s.capacity && s.lru != [] {
      OldestGoes(s);
      assert s.lru[0] in s.lru && e !in s.lru;
      hide Invariant, AfterErase;
      EvictKeepsInUse(AfterErase(s, KeyOf(s.handles[s.lru[0]])), e);
    }
  }

  /** The handle an insert returns is the one its key leads to from then on, with the value and the charge
      it was given, and the budget is met unless everything that is left is in use.  Without a budget the
      handle is the client's alone. */
  lemma InsertIsFound(s: Shard, key: Key, hash: nat, value: string, charge: nat)
    requires Invariant(s, None)
    ensures var t := AfterInsert(s, key, hash, value, charge);
            && (t.usage <= t.capacity || t.lru == [])
            && (s.capacity > 0 ==> (key, hash) in t.table && t.table[(key, hash)] == s.made)
            && s.made in t.handles
            && t.handles[s.made] == LRUHandle(key, hash, value, charge, s.capacity > 0, if s.capacity > 0 then 2 else 1)
  {
    var m := AfterMaking(s, key, hash, value, charge);
    var _ := EvictTakesOldest(m);
    MadeIsInUse(s, key, hash, value, charge);
    hide Invariant, AfterMaking, AfterEvict;
    EvictKeepsInUse(m, s.made);
  }

  lemma MadeIsInUse(s: Shard, key: Key, hash: nat, value: string, charge: nat)
    requires Invariant(s, None)
    ensures var m := AfterMaking(s, key, hash, value, charge);
            && s.made !in m.lru && s.made in m.handles
            && m.handles[s.made] == LRUHandle(key, hash, value, charge, s.capacity > 0, if s.capacity > 0 then 2 else 1)
  {
    var made := AfterMake(s, key, hash, value, charge);
    MakeKeeps(s, key, hash, value, charge);
    assert s.made !in s.handles;
    var stray := Displaced(s, key, hash);
    if stray.Some? {
      assert stray.value != s.made;
    }
    hide TableInvariant, RefsInvariant, LifeInvariant, Total, Unlink;
    var m := AfterMaking(s, key, hash, value, charge);
    assert m.handles[s.made].refs == if s.capacity > 0 then 2 else 1;
  }

  /** When no client holds a handle and the table is empty, every handle ever made has been deleted,
      exactly once. */
  lemma AllDeletedOnce(s: Shard)
    requires Invariant(s, None) && s.held == multiset{} && s.table == map[]
    ensures s.handles == map[] && s.usage == 0
    ensures Once(s.deleted) && forall e: HandleId :: e in s.deleted <==> e < s.made
  {
    assert forall e :: e in s.handles ==> s.handles[e].inCache;
    assert s.handles.Keys == {};
    assert forall e :: e !in s.lru && e !in s.inUse;
    NoMembers(s.lru);
    NoMembers(s.inUse);
  }

  lemma NoMembers(list: seq<HandleId>)
    ensures list == [] || exists x :: x in list
  {
    if list != [] {
      assert list[0] in list;
    }
  }

  lemma EmptyIsConsistent(s: Shard)
    requires s.handles == map[] && s.lru == s.inUse == s.deleted == [] && s.made == 0 && s.usage == 0
    requires s.held == multiset{} && s.table == map[]
    ensures Invariant(s, None)
  {
    assert forall e :: e !in s.deleted;
  }

  lemma StrayOnList(s: Shard, e: HandleId)
    requires Invariant(s, Some(e))
    ensures e in s.handles && s.handles[e].inCache && s.handles[e].refs > 0 && (e in s.lru <==> s.handles[e].refs == 1)
    ensures e in Unlink(s.lru, e) <==> false
  {
    UnlinkMembers(s.lru, e);
  }

  lemma OnList(s: Shard, e: HandleId)
    requires Invariant(s, None) && e in s.handles
    ensures e in s.lru <==> s.handles[e].inCache && s.handles[e].refs == 1
  {
  }

  /** A handle that a client has been given is not idle. */
  lemma LookedUpIsInUse(s: Shard, e: HandleId)
    requires Invariant(s, None) && e in s.handles && s.handles[e].inCache
    ensures e !in AfterRef(s, e).lru
  {
    hide TableInvariant, LifeInvariant, Total, Unlink;
    UnlinkMembers(s.lru, e);
  }

  lemma HeldIsThere(s: Shard, e: HandleId)
    requires Invariant(s, None) && e in s.held
    ensures e in s.handles && s.handles[e].refs > 0
  {
  }

  // ----- The cache object -----

  class LRUCache {
    var capacity: nat
    var usage: int
    var handles: map<HandleId, LRUHandle>
    var lru: seq<HandleId>
    var inUse: seq<HandleId>
    var made: nat
    /** Handles whose deleter has been called. */
    var deleted: seq<HandleId>
    ghost var held: multiset<HandleId>
    const table: HandleTable

    ghost function Abs(): Shard
      reads this, table
    {
      Shard(capacity, usage, handles, lru, inUse, made, deleted, held, table.contents)
    }

    ghost predicate Valid()
      reads this, table
    {
      table.Valid() && Invariant(Abs(), None)
    }

    constructor (capacity_: nat)
      ensures Valid() && fresh(table)
      ensures Abs() == Shard(capacity_, 0, map[], [], [], 0, [], multiset{}, map[])
    {
      capacity, usage, handles, lru, inUse, made, deleted, held := capacity_, 0, map[], [], [], 0, [], multiset{};
      table := new HandleTable();
      new;
      EmptyIsConsistent(Abs());
    }

    method LRU_Remove(e: HandleId)
      modifies this`lru, this`inUse
      ensures lru == (if e in old(lru) then Unlink(old(lru), e) else old(lru))
      ensures inUse == (if e in old(lru) then old(inUse) else Unlink(old(inUse), e))
    {
      if e in lru {
        lru := Unlink(lru, e);
      } else {
        inUse := Unlink(inUse, e);
      }
    }

    method Unref(e: HandleId)
      requires e in handles && handles[e].refs > 0
      requires e in lru <==> handles[e].inCache && handles[e].refs == 1
      modifies this`handles, this`lru, this`inUse, this`deleted
      ensures Abs() == AfterUnref(old(Abs()), e)
    {
      handles := handles[e := handles[e].(refs := handles[e].refs - 1)];
      if handles[e].refs == 0 {
        deleted := deleted + [e];
        handles := handles - {e};
        assert handles == old(handles) - {e};
      } else if handles[e].inCache && handles[e].refs == 1 {
        LRU_Remove(e);
        lru := lru + [e];
      }
    }

    method Ref(e: HandleId)
      requires e in handles
      requires e in lru <==> handles[e].inCache && handles[e].refs == 1
      modifies this`handles, this`lru, this`inUse, this`held
      ensures Abs() == AfterRef(old(Abs()), e)
    {
      if handles[e].refs == 1 && handles[e].inCache {
        LRU_Remove(e);
        inUse := inUse + [e];
      }
      handles := handles[e := handles[e].(refs := handles[e].refs + 1)];
      held := held + multiset{e};
    }

    /** Finishes taking a handle out of the cache that is out of the hash table already. */
    method FinishErase(e: Option<HandleId>) returns (erased: bool)
      requires Invariant(Abs(), e)
      modifies this`handles, this`lru, this`inUse, this`deleted, this`usage
      ensures erased == e.Some? && Invariant(Abs(), None)
      ensures Abs() == AfterDisplacing(old(Abs()), e)
    {
      hide Invariant;
      erased := e.Some?;
      if erased {
        var h := e.value;
        FinishEraseKeeps(Abs(), h);
        StrayOnList(Abs(), h);
        hide Unlink;
        LRU_Remove(h);
        usage := usage - handles[h].charge;
        handles := handles[h := handles[h].(inCache := false)];
        Unref(h);
      }
    }

    /** The handle of a key, with a reference for the caller. */
    method Lookup(key: Key, hash: nat) returns (e: Option<HandleId>)
      requires Valid()
      modifies this
      ensures Valid() && unchanged(table)
      ensures e == if (key, hash) in old(table.contents) then Some(old(table.contents)[(key, hash)]) else None
      ensures Abs() == if e.Some? && e.value in old(handles) then AfterRef(old(Abs()), e.value) else old(Abs())
      ensures e.Some? ==> e.value in handles && KeyOf(handles[e.value]) == (key, hash)
      ensures e.Some? ==> && e.value in old(handles) && e.value !in lru && held == old(held) + multiset{e.value}
                          && handles == old(handles)[e.value := old(handles)[e.value].(refs := old(handles)[e.value].refs + 1)]
    {
      hide HandleTable.Valid;
      e := table.Lookup(key, hash);
      if e.Some? {
        ghost var k := (key, hash);
        assert table.contents[k] == e.value;
        OnList(Abs(), e.value);
        RefKeeps(Abs(), None, e.value);
        LookedUpIsInUse(Abs(), e.value);
        hide Invariant;
        Ref(e.value);
      }
    }

    method Release(e: HandleId)
      requires Valid() && e in held
      modifies this
      ensures Valid() && unchanged(table)
      ensures old(e in handles && handles[e].refs > 0) && Abs() == AfterRelease(old(Abs()), e)
      ensures old(handles[e].refs) == 1 ==> handles == old(handles) - {e} && deleted == old(deleted) + [e]
      ensures old(handles[e].refs) > 1 ==> handles == old(handles)[e := old(handles[e]).(refs := old(handles[e].refs) - 1)]
      ensures lru == old(lru) + if old(handles[e].inCache && handles[e].refs == 2) then [e] else []
    {
      hide HandleTable.Valid, Invariant;
      ReleaseKeeps(Abs(), e);
      HeldIsThere(Abs(), e);
      OnList(Abs(), e);
      held := held - multiset{e};
      Unref(e);
    }

    method Erase(key: Key, hash: nat)
      requires Valid()
      modifies this, table
      ensures Valid() && Abs() == AfterErase(old(Abs()), (key, hash))
      ensures Erased(old(Abs()), Abs(), (key, hash))
    {
      hide HandleTable.Valid, Invariant, AfterFinishErase, Erased;
      ghost var s, k := Abs(), (key, hash);
      EraseIsExact(s, k);
      if k in s.table {
        OutOfTableKeeps(s, k);
      }
      var e := table.Remove(key, hash);
      if e.None? {
        assert table.contents == s.table;
        assert Abs() == s;
      }
      var _ := FinishErase(e);
    }

    /** Erases the oldest idle handle. */
    method EraseOldest()
      requires Valid() && lru != []
      modifies this, table
      ensures Valid()
      ensures old(lru[0] in handles) && Abs() == AfterErase(old(Abs()), KeyOf(old(handles[lru[0]])))
    {
      OldestGoes(Abs());
      var h := handles[lru[0]];
      Erase(h.key, h.hash);
    }

    method Prune()
      requires Valid()
      modifies this, table
      ensures Valid() && Abs() == AfterPrune(old(Abs()))
    {
      while lru != []
        invariant Valid() && AfterPrune(Abs()) == AfterPrune(old(Abs()))
        decreases |lru|
      {
        OldestGoes(Abs());
        EraseOldest();
      }
    }

    /** Makes a handle with a reference for the caller and, unless caching is off, puts it in the cache. */
    method MakeHandle(key: Key, hash: nat, value: string, charge: nat) returns (e: HandleId, displaced: Option<HandleId>)
      requires table.Valid()
      modifies this, table
      ensures table.Valid() && e == old(made)
      ensures Abs() == AfterMake(old(Abs()), key, hash, value, charge) && displaced == Displaced(old(Abs()), key, hash)
    {
      hide HandleTable.Valid;
      e := made;
      made := made + 1;
      held := held + multiset{e};
      displaced := None;
      if capacity > 0 {
        handles := handles[e := LRUHandle(key, hash, value, charge, true, 2)];
        inUse := inUse + [e];
        usage := usage + charge;
        displaced := table.Insert(key, hash, e);
      } else {
        handles := handles[e := LRUHandle(key, hash, value, charge, false, 1)];
      }
    }

    /** Adds a handle and displaces the old one of the same key. */
    method Make(key: Key, hash: nat, value: string, charge: nat) returns (e: HandleId)
      requires Valid()
      modifies this, table
      ensures Valid() && e == old(made)
      ensures Abs() == AfterMaking(old(Abs()), key, hash, value, charge)
    {
      hide Invariant, AfterDisplacing, AfterMake, Displaced;
      var displaced;
      MakeKeeps(Abs(), key, hash, value, charge);
      e, displaced := MakeHandle(key, hash, value, charge);
      var _ := FinishErase(displaced);
    }

    /** Adds a handle and evicts what then exceeds the budget. */
    method Insert(key: Key, hash: nat, value: string, charge: nat) returns (e: HandleId)
      requires Valid()
      modifies this, table
      ensures Valid() && e == old(made) && Abs() == AfterInsert(old(Abs()), key, hash, value, charge)
    {
      hide Invariant, HandleTable.Valid;
      e := Make(key, hash, value, charge);
      while usage > capacity && lru != []
        invariant Valid()
        invariant AfterEvict(Abs()) == AfterInsert(old(Abs()), key, hash, value, charge)
        decreases |lru|
      {
        OldestGoes(Abs());
        EraseOldest();
      }
    }
  }
}
