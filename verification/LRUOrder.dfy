/** What makes the cache least-recently-used: over every run of its operations, idle handles stand in the
    order in which they were last released, so eviction takes those released longest ago. */
module LRUOrders {
  import opened Entries
  import opened HandleTables
  import opened LRUCaches

  datatype Op =
    | InsertOp(key: Key, hash: nat, value: string, charge: nat)
    | LookupOp(key: Key, hash: nat)
    | ReleaseOp(e: HandleId)
    | EraseOp(key: Key, hash: nat)
    | PruneOp

  ghost predicate Step(s: Shard, t: Shard, op: Op) {
    Invariant(s, None) &&
    match op
    case InsertOp(key, hash, value, charge) => t == AfterInsert(s, key, hash, value, charge)
    case LookupOp(key, hash) =>
      if (key, hash) in s.table && s.table[(key, hash)] in s.handles then t == AfterRef(s, s.table[(key, hash)]) else t == s
    case ReleaseOp(e) => e in s.held && e in s.handles && s.handles[e].refs > 0 && t == AfterRelease(s, e)
    case EraseOp(key, hash) => t == AfterErase(s, (key, hash))
    case PruneOp => t == AfterPrune(s)
  }

  lemma StepKeeps(s: Shard, t: Shard, op: Op)
    requires Step(s, t, op)
    ensures Invariant(t, None)
  {
    hide Invariant, AfterRef, AfterRelease, AfterInsert, AfterErase, AfterPrune;
    match op
    case LookupOp(key, hash) =>
      if (key, hash) in s.table && s.table[(key, hash)] in s.handles {
        RefKeeps(s, None, s.table[(key, hash)]);
      }
    case ReleaseOp(e) => ReleaseKeeps(s, e);
    case _ =>
  }

  ghost predicate IsRun(states: seq<Shard>, ops: seq<Op>) {
    && |states| == |ops| + 1
    && states[0] == Shard(states[0].capacity, 0, map[], [], [], 0, [], multiset{}, map[])
    && forall n :: 0 <= n < |ops| ==> Step(states[n], states[n + 1], ops[n])
  }

  lemma RunStep(states: seq<Shard>, ops: seq<Op>, n: nat)
    requires IsRun(states, ops) && n < |ops|
    ensures |states| == |ops| + 1 && Step(states[n], states[n + 1], ops[n]) && Invariant(states[n], None)
  {
    hide Invariant;
  }

  lemma {:induction false} RunKeeps(states: seq<Shard>, ops: seq<Op>, n: nat)
    requires IsRun(states, ops) && n < |states|
    ensures Invariant(states[n], None)
  {
    if n == 0 {
      EmptyIsConsistent(states[0]);
    } else {
      assert |states| == |ops| + 1;
      hide *;
      RunStep(states, ops, n - 1);
      StepKeeps(states[n - 1], states[n], ops[n - 1]);
    }
  }

  // ----- When a handle was last released -----

  /** Index of the last release of the handle, or -1. */
  function LastRelease(ops: seq<Op>, e: HandleId): (r: int)
    ensures -1 <= r < |ops|
    ensures r >= 0 ==> ops[r] == ReleaseOp(e)
    ensures forall i :: r < i < |ops| ==> ops[i] != ReleaseOp(e)
    decreases |ops|
  {
    if ops == [] then -1
    else if ops[|ops| - 1] == ReleaseOp(e) then |ops| - 1
    else LastRelease(ops[..|ops| - 1], e)
  }

  ghost predicate InReleaseOrder(list: seq<HandleId>, ops: seq<Op>) {
    && (forall i :: 0 <= i < |list| ==> LastRelease(ops, list[i]) >= 0)
    && forall i, j :: 0 <= i < j < |list| ==> LastRelease(ops, list[i]) < LastRelease(ops, list[j])
  }

  lemma NothingIsInOrder(ops: seq<Op>)
    ensures InReleaseOrder([], ops)
  {
  }

  lemma OtherReleasesStay(ops: seq<Op>, op: Op, e: HandleId)
    ensures op != ReleaseOp(e) ==> LastRelease(ops + [op], e) == LastRelease(ops, e)
    ensures op == ReleaseOp(e) ==> LastRelease(ops + [op], e) == |ops|
  {
    assert (ops + [op])[..|ops|] == ops;
  }

  /** Another step leaves a list of handles in order that it does not release. */
  lemma OrderStays(list: seq<HandleId>, ops: seq<Op>, op: Op)
    requires InReleaseOrder(list, ops) && forall e :: e in list ==> op != ReleaseOp(e)
    ensures InReleaseOrder(list, ops + [op])
  {
    hide LastRelease;
    forall i | 0 <= i < |list| ensures LastRelease(ops + [op], list[i]) == LastRelease(ops, list[i]) {
      OtherReleasesStay(ops, op, list[i]);
    }
  }

  /** The handle released last comes last. */
  lemma ReleasedComesLast(list: seq<HandleId>, ops: seq<Op>, e: HandleId)
    requires InReleaseOrder(list, ops) && e !in list
    ensures InReleaseOrder(list + [e], ops + [ReleaseOp(e)])
  {
    OrderStays(list, ops, ReleaseOp(e));
    OtherReleasesStay(ops, ReleaseOp(e), e);
    forall i | 0 <= i < |list| ensures LastRelease(ops + [ReleaseOp(e)], list[i]) < |ops| {
      OtherReleasesStay(ops, ReleaseOp(e), list[i]);
    }
    hide LastRelease;
  }

  lemma ConsInOrder(first: HandleId, rest: seq<HandleId>, ops: seq<Op>)
    requires InReleaseOrder(rest, ops) && LastRelease(ops, first) >= 0
    requires forall x :: x in rest ==> LastRelease(ops, first) < LastRelease(ops, x)
    ensures InReleaseOrder([first] + rest, ops)
  {
    hide LastRelease;
  }

  lemma TailInOrder(list: seq<HandleId>, ops: seq<Op>)
    requires InReleaseOrder(list, ops) && list != []
    ensures LastRelease(ops, list[0]) >= 0 && InReleaseOrder(list[1..], ops)
    ensures forall x :: x in list[1..] ==> LastRelease(ops, list[0]) < LastRelease(ops, x)
  {
    hide LastRelease;
    forall x | x in list[1..] ensures LastRelease(ops, list[0]) < LastRelease(ops, x) {
      var i :| 0 <= i < |list[1..]| && list[1..][i] == x;
      assert x == list[i + 1];
    }
  }

  lemma {:induction false} UnlinkKeepsOrder(list: seq<HandleId>, e: HandleId, ops: seq<Op>)
    requires InReleaseOrder(list, ops)
    ensures InReleaseOrder(Unlink(list, e), ops)
  {
    hide LastRelease, InReleaseOrder;
    if list != [] {
      TailInOrder(list, ops);
      UnlinkKeepsOrder(list[1..], e, ops);
      UnlinkTakes(list[1..], e);
      ConsInOrder(list[0], Unlink(list[1..], e), ops);
    }
  }

  lemma RestKeepsOrder(list: seq<HandleId>, k: nat, ops: seq<Op>)
    requires InReleaseOrder(list, ops) && k <= |list|
    ensures InReleaseOrder(list[k..], ops)
  {
    hide LastRelease;
  }

  // ----- What the operations do to the idle handles -----

  /** A list that comes from another one by taking handles out. */
  ghost predicate Thinned(list: seq<HandleId>, from: seq<HandleId>) {
    && (forall e :: e in list ==> e in from)
    && forall ops :: InReleaseOrder(from, ops) ==> InReleaseOrder(list, ops)
  }

  lemma UnlinkThins(list: seq<HandleId>, e: HandleId)
    ensures Thinned(Unlink(list, e), list)
  {
    forall ops | InReleaseOrder(list, ops) ensures InReleaseOrder(Unlink(list, e), ops) {
      UnlinkKeepsOrder(list, e, ops);
    }
    UnlinkTakes(list, e);
  }

  lemma {:induction false} UnlinkTakes(list: seq<HandleId>, e: HandleId)
    ensures forall x :: x in Unlink(list, e) ==> x in list
  {
    if list != [] {
      UnlinkTakes(list[1..], e);
    }
  }

  lemma RestThins(list: seq<HandleId>, k: nat)
    requires k <= |list|
    ensures Thinned(list[k..], list)
  {
    forall ops | InReleaseOrder(list, ops) ensures InReleaseOrder(list[k..], ops) {
      RestKeepsOrder(list, k, ops);
    }
  }

  lemma FinishEraseThins(s: Shard, e: HandleId)
    requires e in s.handles && s.handles[e].refs > 0
    ensures Thinned(AfterFinishErase(s, e).lru, s.lru)
  {
    hide Thinned;
    UnlinkThins(s.lru, e);
    RestThins(s.lru, 0);
    assert s.lru[0..] == s.lru;
  }

  lemma EraseThins(s: Shard, k: (Key, nat))
    requires Invariant(s, None)
    ensures Thinned(AfterErase(s, k).lru, s.lru)
  {
    RestThins(s.lru, 0);
    assert s.lru[0..] == s.lru;
    hide Invariant, Thinned, AfterFinishErase;
    if k in s.table {
      OutOfTableKeeps(s, k);
      FinishEraseThins(OutOfTable(s, k), s.table[k]);
    }
  }

  lemma MakingThins(s: Shard, key: Key, hash: nat, value: string, charge: nat)
    requires Invariant(s, None)
    ensures Thinned(AfterMaking(s, key, hash, value, charge).lru, s.lru)
  {
    RestThins(s.lru, 0);
    assert s.lru[0..] == s.lru;
    var m, stray := AfterMake(s, key, hash, value, charge), Displaced(s, key, hash);
    MakeKeeps(s, key, hash, value, charge);
    assert m.lru == s.lru;
    hide Invariant, Thinned, AfterFinishErase, AfterMake, Displaced;
    if stray.Some? {
      StrayIsThere(m, stray.value);
      FinishEraseThins(m, stray.value);
    }
  }

  lemma InsertThins(s: Shard, key: Key, hash: nat, value: string, charge: nat)
    requires Invariant(s, None)
    ensures var m := AfterMaking(s, key, hash, value, charge);
            Thinned(AfterInsert(s, key, hash, value, charge).lru, m.lru) && Thinned(m.lru, s.lru)
  {
    hide Invariant, Thinned, AfterMaking, AfterEvict;
    MakingThins(s, key, hash, value, charge);
    var m := AfterMaking(s, key, hash, value, charge);
    var k := EvictTakesOldest(m);
    RestThins(m.lru, k);
  }

  /** Only a release puts a handle among the idle ones: behind all others. */
  lemma ReleaseAppends(s: Shard, e: HandleId)
    requires Invariant(s, None) && e in s.held && e in s.handles && s.handles[e].refs > 0
    ensures e !in s.lru
    ensures AfterRelease(s, e).lru == if s.handles[e].inCache && s.handles[e].refs == 2 then s.lru + [e] else s.lru
  {
    hide TableInvariant, LifeInvariant, Total;
  }

  lemma LookupThins(s: Shard, e: HandleId)
    requires e in s.handles
    ensures Thinned(AfterRef(s, e).lru, s.lru)
  {
    hide Thinned;
    UnlinkThins(s.lru, e);
    RestThins(s.lru, 0);
    assert s.lru[0..] == s.lru;
  }

  lemma StepThins(s: Shard, t: Shard, op: Op)
    requires Step(s, t, op) && !op.ReleaseOp?
    ensures forall ops :: InReleaseOrder(s.lru, ops) ==> InReleaseOrder(t.lru, ops)
  {
    hide Invariant, InReleaseOrder, AfterRef, AfterMaking, AfterErase, AfterPrune, AfterInsert;
    match op
    case InsertOp(key, hash, value, charge) => InsertThins(s, key, hash, value, charge);
    case LookupOp(key, hash) =>
      if (key, hash) in s.table && s.table[(key, hash)] in s.handles {
        LookupThins(s, s.table[(key, hash)]);
      }
    case EraseOp(key, hash) => EraseThins(s, (key, hash));
    case PruneOp =>
      PruneTakesIdle(s);
      RestThins(s.lru, |s.lru|);
      assert s.lru[|s.lru|..] == [];
  }

  lemma OneMoreStep(states: seq<Shard>, ops: seq<Op>, n: nat)
    requires IsRun(states, ops) && n < |ops| < |states| && InReleaseOrder(states[n].lru, ops[..n])
    ensures InReleaseOrder(states[n + 1].lru, ops[..n + 1])
  {
    var s, t, op, front := states[n], states[n + 1], ops[n], ops[..n];
    assert |states| == |ops| + 1 && ops[..n + 1] == front + [op];
    hide *;
    RunStep(states, ops, n);
    NextInReleaseOrder(s, t, op, front);
  }

  lemma {:induction false} IdleInReleaseOrderUpTo(states: seq<Shard>, ops: seq<Op>, n: nat)
    requires IsRun(states, ops) && n < |states|
    ensures InReleaseOrder(states[n].lru, ops[..n])
  {
    assert |states| == |ops| + 1 && states[0].lru == [];
    hide *;
    if n == 0 {
      NothingIsInOrder(ops[..0]);
    } else {
      IdleInReleaseOrderUpTo(states, ops, n - 1);
      OneMoreStep(states, ops, n - 1);
    }
  }

  lemma NextInReleaseOrder(s: Shard, t: Shard, op: Op, ops: seq<Op>)
    requires Step(s, t, op) && InReleaseOrder(s.lru, ops)
    ensures InReleaseOrder(t.lru, ops + [op])
  {
    hide Invariant, InReleaseOrder, AfterRef, AfterMaking, AfterErase, AfterPrune, AfterInsert, AfterRelease;
    if op.ReleaseOp? {
      ReleaseAppends(s, op.e);
      if t.lru == s.lru {
        OrderStays(s.lru, ops, op);
      } else {
        ReleasedComesLast(s.lru, ops, op.e);
      }
    } else {
      StepThins(s, t, op);
      OrderStays(t.lru, ops, op);
    }
  }

  /** In every run, idle handles stand in the order in which clients last let go of them. */
  lemma IdleInReleaseOrder(states: seq<Shard>, ops: seq<Op>)
    requires IsRun(states, ops)
    ensures InReleaseOrder(states[|ops|].lru, ops)
  {
    IdleInReleaseOrderUpTo(states, ops, |ops|);
    assert ops[..|ops|] == ops;
  }

  /** An insert evicts the idle handles that were let go of longest ago: each that it evicts was last
      released before every one that stays idle. */
  lemma EvictedWereReleasedFirst(states: seq<Shard>, ops: seq<Op>, n: nat, evicted: HandleId, kept: HandleId)
    requires IsRun(states, ops) && n < |ops| && ops[n].InsertOp? && Invariant(states[n], None)
    requires var op := ops[n];
             var m := AfterMaking(states[n], op.key, op.hash, op.value, op.charge);
             evicted in m.lru && evicted !in states[n + 1].lru && kept in states[n + 1].lru
    ensures 0 <= LastRelease(ops[..n], evicted) < LastRelease(ops[..n], kept)
  {
    var op := ops[n];
    hide IsRun, Invariant, AfterMaking, InReleaseOrder, LastRelease, AfterEvict;
    RunStep(states, ops, n);
    IdleInReleaseOrderUpTo(states, ops, n);
    InsertEvictsFirst(states[n], states[n + 1], op, ops[..n], evicted, kept);
  }

  lemma InsertEvictsFirst(s: Shard, t: Shard, op: Op, ops: seq<Op>, evicted: HandleId, kept: HandleId)
    requires Step(s, t, op) && op.InsertOp? && InReleaseOrder(s.lru, ops)
    requires var m := AfterMaking(s, op.key, op.hash, op.value, op.charge);
             evicted in m.lru && evicted !in t.lru && kept in t.lru
    ensures 0 <= LastRelease(ops, evicted) < LastRelease(ops, kept)
  {
    hide Invariant, AfterMaking, InReleaseOrder, LastRelease, AfterEvict;
    MakingThins(s, op.key, op.hash, op.value, op.charge);
    var m := AfterMaking(s, op.key, op.hash, op.value, op.charge);
    var k := EvictTakesOldest(m);
    EarlierInOrder(m.lru, k, ops, evicted, kept);
  }

  lemma EarlierInOrder(list: seq<HandleId>, k: nat, ops: seq<Op>, a: HandleId, b: HandleId)
    requires InReleaseOrder(list, ops) && k <= |list| && a in list && a !in list[k..] && b in list[k..]
    ensures 0 <= LastRelease(ops, a) < LastRelease(ops, b)
  {
    hide LastRelease;
    assert list == list[..k] + list[k..];
    var i :| 0 <= i < k && list[..k][i] == a;
    var j :| 0 <= j < |list[k..]| && list[k..][j] == b;
    assert list[i] == a && list[k + j] == b;
  }
}
