/** Many writers, one log: the writer at the front of the queue commits a group of batches for the
    others.  Joining the queue, logging, syncing and every single insert into the memtable are steps
    of their own; writers and readers come in between. */
module GroupCommit {
  import opened Entries
  import Engine

  type Op = Engine.Op

  /** One call of `Write`; no batch means a forced memtable switch.  `size` is the batch's byte size. */
  datatype Writer = Writer(batch: Option<seq<Op>>, sync: bool, size: nat)

  /** Operations of a list of writers, in order. */
  function Ops(writers: seq<Writer>): seq<Op> {
    if writers == [] then []
    else
      var last := writers[|writers| - 1];
      Ops(writers[..|writers| - 1]) + if last.batch.Some? then last.batch.value else []
  }

  lemma {:induction false} OpsConcat(a: seq<Writer>, b: seq<Writer>)
    ensures Ops(a + b) == Ops(a) + Ops(b)
  {
    if b == [] {
      assert a + b == a;
    } else {
      assert (a + b)[..|a + b| - 1] == a + b[..|b| - 1];
      OpsConcat(a, b[..|b| - 1]);
    }
  }

  // ----- Choosing a group -----

  function Bytes(writers: seq<Writer>): nat {
    if writers == [] then 0
    else
      var last := writers[|writers| - 1];
      Bytes(writers[..|writers| - 1]) + if last.batch.Some? then last.size else 0
  }

  /** A small write is not slowed down much by what joins it. */
  function MaxSize(first: Writer): nat {
    if first.size <= 0x2_0000 then first.size + 0x2_0000 else 0x10_0000
  }

  /** Whether the writer at position `i` may join the group of the first. */
  predicate Joins(queue: seq<Writer>, i: nat)
    requires 0 < i < |queue|
  {
    && (queue[i].sync ==> queue[0].sync)
    && (queue[i].batch.Some? ==> Bytes(queue[..i + 1]) <= MaxSize(queue[0]))
  }

  /** A group is the longest prefix of the queue whose members may all join. */
  ghost predicate IsGroup(queue: seq<Writer>, n: nat) {
    && 1 <= n <= |queue| && queue[0].batch.Some?
    && (forall i :: 0 < i < n ==> Joins(queue, i))
    && (n < |queue| ==> !Joins(queue, n))
  }

  method BuildBatchGroup(queue: seq<Writer>) returns (n: nat, updates: seq<Op>)
    requires queue != [] && queue[0].batch.Some?
    ensures IsGroup(queue, n) && updates == Ops(queue[..n])
  {
    var first := queue[0];
    updates := first.batch.value;
    var size := first.size;
    var maxSize := 0x10_0000;
    if size <= 0x2_0000 {
      maxSize := size + 0x2_0000;
    }
    n := 1;
    assert queue[..1] == [first] && [first][..0] == [];
    while n < |queue|
      invariant 1 <= n <= |queue|
      invariant updates == Ops(queue[..n]) && size == Bytes(queue[..n])
      invariant forall i :: 0 < i < n ==> Joins(queue, i)
    {
      var w := queue[n];
      assert queue[..n + 1][..n] == queue[..n];
      if w.sync && !first.sync {
        break;
      }
      if w.batch.Some? {
        size := size + w.size;
        if size > maxSize {
          break;
        }
        updates := updates + w.batch.value;
      }
      n := n + 1;
    }
  }

  // ----- The protocol -----

  datatype Record = Record(first: nat, ops: seq<Op>)

  /** What the writer at the front of the queue is about. */
  datatype Leader =
    | Nobody
    | Leading(n: nat, updates: seq<Op>, logged: bool, synced: bool, applied: nat)

  /** `joined` lists all writers in the order they came; `finished` those that have returned.
      Numbers up to `base` were given out before; `durable` counts the logged operations that a sync
      has covered. */
  datatype State = State(
    queue: seq<Writer>,
    finished: seq<Writer>,
    joined: seq<Writer>,
    leader: Leader,
    log: seq<Record>,
    durable: nat,
    mem: set<Entry>,
    lastSequence: nat,
    base: nat)

  function LogOps(log: seq<Record>): seq<Op> {
    if log == [] then [] else LogOps(log[..|log| - 1]) + log[|log| - 1].ops
  }

  ghost predicate Init(s: State) {
    && s.queue == s.finished == s.joined == [] && s.leader == Nobody
    && s.log == [] && s.durable == 0 && s.mem == {} && s.lastSequence == s.base <= MAX_SEQUENCE
  }

  ghost predicate Join(s: State, t: State, w: Writer) {
    t == s.(queue := s.queue + [w], joined := s.joined + [w])
  }

  /** The front writer takes the lead: with a batch it forms a group, without one it stays alone. */
  ghost predicate Lead(s: State, t: State, n: nat) {
    && s.leader == Nobody && s.queue != []
    && (if s.queue[0].batch.Some? then IsGroup(s.queue, n) else n == 1)
    && s.lastSequence + |Ops(s.queue[..n])| <= MAX_SEQUENCE
    && t == s.(leader := Leading(n, Ops(s.queue[..n]), false, false, 0))
  }

  predicate HasBatch(s: State) {
    s.queue != [] && s.queue[0].batch.Some?
  }

  ghost predicate AddLog(s: State, t: State) {
    && s.leader.Leading? && HasBatch(s) && !s.leader.logged
    && t == s.(log := s.log + [Record(s.lastSequence + 1, s.leader.updates)], leader := s.leader.(logged := true))
  }

  ghost predicate Sync(s: State, t: State) {
    && s.leader.Leading? && HasBatch(s) && s.queue[0].sync && s.leader.logged && !s.leader.synced
    && t == s.(durable := |LogOps(s.log)|, leader := s.leader.(synced := true))
  }

  /** One operation goes to the memtable. */
  ghost predicate Insert(s: State, t: State) {
    && s.leader.Leading? && HasBatch(s) && s.leader.logged && (s.queue[0].sync ==> s.leader.synced)
    && s.leader.applied < |s.leader.updates|
    && s.lastSequence + 1 + s.leader.applied <= MAX_SEQUENCE
    && var op := s.leader.updates[s.leader.applied];
       var seqno: SequenceNumber := s.lastSequence + 1 + s.leader.applied;
       t == s.(mem := s.mem + {Entry(InternalKey(op.key, seqno, op.kind), op.value)},
               leader := s.leader.(applied := s.leader.applied + 1))
  }

  /** The group's numbers are published and its members return. */
  ghost predicate Release(s: State, t: State) {
    && s.leader.Leading? && s.queue != [] && s.leader.n <= |s.queue|
    && (HasBatch(s) ==> s.leader.logged && (s.queue[0].sync ==> s.leader.synced) && s.leader.applied == |s.leader.updates|)
    && t == s.(lastSequence := s.lastSequence + (if HasBatch(s) then |s.leader.updates| else 0),
               finished := s.finished + s.queue[..s.leader.n], queue := s.queue[s.leader.n..], leader := Nobody)
  }

  ghost predicate Next(s: State, t: State) {
    || (exists w :: Join(s, t, w)) || (exists n :: Lead(s, t, n))
    || AddLog(s, t) || Sync(s, t) || Insert(s, t) || Release(s, t)
  }

  ghost predicate IsRun(trace: seq<State>) {
    trace != [] && Init(trace[0]) && forall i :: 0 <= i < |trace| - 1 ==> Next(trace[i], trace[i + 1])
  }

  // ----- What every run keeps -----

  /** The entries of a list of operations numbered from `base + 1`. */
  ghost function Numbered(ops: seq<Op>, base: nat): set<Entry> {
    set i | 0 <= i < |ops| && base + 1 + i <= MAX_SEQUENCE :: EntryOf(ops, base, i)
  }

  function EntryOf(ops: seq<Op>, base: nat, i: nat): Entry
    requires i < |ops| && base + 1 + i <= MAX_SEQUENCE
  {
    Entry(InternalKey(ops[i].key, base + 1 + i, ops[i].kind), ops[i].value)
  }

  /** Operations that have been given to the log, and those that are in the memtable. */
  ghost function Logged(s: State): seq<Op> {
    Ops(s.finished) + if s.leader.Leading? && s.leader.logged then s.leader.updates else []
  }

  ghost function Applied(s: State): seq<Op> {
    Ops(s.finished) + if s.leader.Leading? && s.leader.applied <= |s.leader.updates| then s.leader.updates[..s.leader.applied] else []
  }

  /** Records carry consecutive ranges of numbers. */
  ghost predicate Contiguous(log: seq<Record>, base: nat) {
    forall i :: 0 <= i < |log| ==> log[i].first == base + 1 + |LogOps(log[..i])|
  }

  ghost predicate LeaderInvariant(s: State) {
    s.leader.Leading? ==>
      && 1 <= s.leader.n <= |s.queue| && s.leader.updates == Ops(s.queue[..s.leader.n])
      && (forall i :: 0 <= i < s.leader.n && s.queue[i].sync && s.queue[i].batch.Some? ==> s.queue[0].sync && HasBatch(s))
      && s.leader.applied <= |s.leader.updates|
      && (s.leader.applied > 0 || s.leader.synced ==> s.leader.logged)
      && (s.leader.logged ==> HasBatch(s))
      && (s.leader.synced ==> s.durable == |Ops(s.finished)| + |s.leader.updates|)
      && s.lastSequence + |s.leader.updates| <= MAX_SEQUENCE
      && (!HasBatch(s) ==> s.leader.updates == [])
  }

  ghost predicate SyncInvariant(s: State) {
    && s.durable <= |LogOps(s.log)|
    && forall i :: 0 <= i < |s.finished| && s.finished[i].sync && s.finished[i].batch.Some? ==> |Ops(s.finished[..i + 1])| <= s.durable
  }

  ghost predicate Invariant(s: State) {
    && s.joined == s.finished + s.queue
    && s.lastSequence == s.base + |Ops(s.finished)| <= MAX_SEQUENCE
    && LeaderInvariant(s)
    && LogOps(s.log) == Logged(s) && Contiguous(s.log, s.base)
    && s.mem == Numbered(Applied(s), s.base)
    && SyncInvariant(s)
  }

  lemma JoinKeeps(s: State, t: State, w: Writer)
    requires Invariant(s) && Join(s, t, w)
    ensures Invariant(t)
  {
    assert s.finished + s.queue + [w] == s.finished + (s.queue + [w]);
    if s.leader.Leading? {
      assert t.queue[..s.leader.n] == s.queue[..s.leader.n];
    }
  }

  lemma LeadKeeps(s: State, t: State, n: nat)
    requires Invariant(s) && Lead(s, t, n)
    ensures Invariant(t)
  {
    assert Ops(s.finished) + [] == Ops(s.finished);
    forall i | 0 <= i < n && s.queue[i].sync && s.queue[i].batch.Some? ensures s.queue[0].sync && HasBatch(s) {
      if i > 0 {
        assert Joins(s.queue, i);
      }
    }
    if !HasBatch(s) {
      assert s.queue[..1][..0] == [];
    }
  }

  lemma AddLogKeeps(s: State, t: State)
    requires Invariant(s) && AddLog(s, t)
    ensures Invariant(t)
  {
    hide Numbered, Ops;
    assert t.log[..|t.log| - 1] == s.log;
    assert Ops(s.finished) + [] == Ops(s.finished);
    forall i | 0 <= i < |t.log| ensures t.log[i].first == t.base + 1 + |LogOps(t.log[..i])| {
      if i < |s.log| {
        assert t.log[..i] == s.log[..i];
      }
    }
  }

  lemma SyncKeeps(s: State, t: State)
    requires Invariant(s) && Sync(s, t)
    ensures Invariant(t)
  {
  }

  lemma InsertKeeps(s: State, t: State)
    requires Invariant(s) && Insert(s, t)
    ensures Invariant(t)
  {
    var a, b := Applied(s), Applied(t);
    var op := s.leader.updates[s.leader.applied];
    assert s.leader.updates[..s.leader.applied + 1] == s.leader.updates[..s.leader.applied] + [op];
    assert b == a + [op];
    NumberedSnoc(a, op, s.base);
  }

  lemma NumberedSnoc(ops: seq<Op>, op: Op, base: nat)
    requires base + 1 + |ops| <= MAX_SEQUENCE
    ensures Numbered(ops + [op], base) == Numbered(ops, base) + {Entry(InternalKey(op.key, base + 1 + |ops|, op.kind), op.value)}
  {
    var more := ops + [op];
    forall e | e in Numbered(ops, base) ensures e in Numbered(more, base) {
      var i :| 0 <= i < |ops| && base + 1 + i <= MAX_SEQUENCE && e == EntryOf(ops, base, i);
      assert e == EntryOf(more, base, i);
    }
    assert EntryOf(more, base, |ops|) == Entry(InternalKey(op.key, base + 1 + |ops|, op.kind), op.value);
    forall e | e in Numbered(more, base) ensures e in Numbered(ops, base) || e == EntryOf(more, base, |ops|) {
      var i :| 0 <= i < |more| && base + 1 + i <= MAX_SEQUENCE && e == EntryOf(more, base, i);
      if i < |ops| {
        assert e == EntryOf(ops, base, i);
      }
    }
  }

  lemma ReleaseKeeps(s: State, t: State)
    requires Invariant(s) && Release(s, t)
    ensures Invariant(t)
  {
    var n := s.leader.n;
    assert s.queue == s.queue[..n] + s.queue[n..];
    assert s.finished + s.queue == s.finished + s.queue[..n] + s.queue[n..];
    OpsConcat(s.finished, s.queue[..n]);
    assert s.leader.updates[..|s.leader.updates|] == s.leader.updates;
    assert Ops(t.finished) + [] == Ops(t.finished) == Ops(s.finished) + s.leader.updates;
    assert Logged(t) == Logged(s) && Applied(t) == Applied(s);
    ReleaseKeepsSync(s, t);
  }

  lemma ReleaseKeepsSync(s: State, t: State)
    requires Invariant(s) && Release(s, t)
    ensures SyncInvariant(t)
  {
    hide Numbered, Applied, Logged, Contiguous, LogOps, Ops;
    forall i | 0 <= i < |t.finished| && t.finished[i].sync && t.finished[i].batch.Some?
      ensures |Ops(t.finished[..i + 1])| <= t.durable
    {
      if i < |s.finished| {
        assert t.finished[..i + 1] == s.finished[..i + 1];
      } else {
        var k := i - |s.finished|;
        assert t.finished[i] == s.queue[k];
        assert t.finished[..i + 1] == s.finished + s.queue[..k + 1];
        OpsConcat(s.finished, s.queue[..k + 1]);
        assert s.queue[..s.leader.n] == s.queue[..k + 1] + s.queue[k + 1..s.leader.n];
        OpsConcat(s.queue[..k + 1], s.queue[k + 1..s.leader.n]);
      }
    }
  }

  lemma NextKeeps(s: State, t: State)
    requires Invariant(s) && Next(s, t)
    ensures Invariant(t)
  {
    hide Invariant;
    if w :| Join(s, t, w) {
      JoinKeeps(s, t, w);
    } else if n :| Lead(s, t, n) {
      LeadKeeps(s, t, n);
    } else if AddLog(s, t) {
      AddLogKeeps(s, t);
    } else if Sync(s, t) {
      SyncKeeps(s, t);
    } else if Insert(s, t) {
      InsertKeeps(s, t);
    } else {
      ReleaseKeeps(s, t);
    }
  }

  lemma {:induction false} RunKeepsInvariant(trace: seq<State>, i: nat)
    requires IsRun(trace) && i < |trace|
    ensures Invariant(trace[i])
  {
    if i == 0 {
      assert Applied(trace[0]) == [];
    } else {
      RunKeepsInvariant(trace, i - 1);
      NextKeeps(trace[i - 1], trace[i]);
    }
  }

  // ----- What this means for writers and readers -----

  /** The log holds every batch of the writers that have returned, each once and in the order in which
      the writers came, with consecutive numbers; beyond that at most the group being committed. */
  lemma LogIsQueueOrder(trace: seq<State>, i: nat)
    requires IsRun(trace) && i < |trace|
    ensures var s := trace[i];
            && s.joined == s.finished + s.queue
            && Contiguous(s.log, s.base)
            && (s.leader == Nobody ==> LogOps(s.log) == Ops(s.finished))
            && Ops(s.finished) <= LogOps(s.log) <= Ops(s.joined)
  {
    hide IsRun, Numbered, Applied, SyncInvariant, Contiguous, Ops, LogOps;
    RunKeepsInvariant(trace, i);
    var s := trace[i];
    assert Ops(s.finished) + [] == Ops(s.finished);
    OpsConcat(s.finished, s.queue);
    if s.leader.Leading? {
      var n := s.leader.n;
      assert s.queue == s.queue[..n] + s.queue[n..];
      OpsConcat(s.queue[..n], s.queue[n..]);
      assert Ops(s.joined) == Ops(s.finished) + Ops(s.queue[..n]) + Ops(s.queue[n..]);
    }
  }

  /** A writer that asked for a sync returns only after a sync has covered its batch: it never rides
      with a leader that does not sync. */
  lemma SyncWritersAreDurable(trace: seq<State>, i: nat, k: nat)
    requires IsRun(trace) && i < |trace| && k < |trace[i].finished|
    requires trace[i].finished[k].sync && trace[i].finished[k].batch.Some?
    ensures |Ops(trace[i].finished[..k + 1])| <= trace[i].durable <= |LogOps(trace[i].log)|
  {
    RunKeepsInvariant(trace, i);
  }

  lemma FinishedGrowsStep(s: State, t: State)
    requires Next(s, t)
    ensures s.finished <= t.finished && t.base == s.base
  {
  }

  lemma {:induction false} FinishedGrows(trace: seq<State>, i: nat, j: nat)
    requires IsRun(trace) && i <= j < |trace|
    ensures trace[i].finished <= trace[j].finished && trace[j].base == trace[i].base
    decreases j
  {
    if i < j {
      FinishedGrows(trace, i, j - 1);
      FinishedGrowsStep(trace[j - 1], trace[j]);
    }
  }

  lemma NumberedPrefix(a: seq<Op>, b: seq<Op>, base: nat, e: Entry)
    requires a <= b && base + |a| <= MAX_SEQUENCE
    ensures e in Numbered(b, base) && e.k.seqno <= base + |a| <==> e in Numbered(a, base)
  {
    if e in Numbered(a, base) {
      var i :| 0 <= i < |a| && base + 1 + i <= MAX_SEQUENCE && e == EntryOf(a, base, i);
      assert e == EntryOf(b, base, i);
    }
    if e in Numbered(b, base) && e.k.seqno <= base + |a| {
      var i :| 0 <= i < |b| && base + 1 + i <= MAX_SEQUENCE && e == EntryOf(b, base, i);
      assert e == EntryOf(a, base, i);
    }
  }

  /** A reader who takes the last sequence number at one moment and reads at any later moment sees
      exactly the batches of the writers that had returned by then: every group is visible wholly or
      not at all. */
  lemma GroupsAreAtomic(trace: seq<State>, i: nat, j: nat, e: Entry)
    requires IsRun(trace) && i <= j < |trace|
    ensures e in trace[j].mem && e.k.seqno <= trace[i].lastSequence <==> e in Numbered(Ops(trace[i].finished), trace[i].base)
  {
    RunKeepsInvariant(trace, i);
    RunKeepsInvariant(trace, j);
    FinishedGrows(trace, i, j);
    var s, t := trace[i], trace[j];
    assert t.finished == s.finished + t.finished[|s.finished|..];
    OpsConcat(s.finished, t.finished[|s.finished|..]);
    NumberedPrefix(Ops(s.finished), Applied(t), s.base, e);
  }

  /** The batch of a writer that has returned has the numbers that follow those of all before it. */
  lemma BatchNumbers(trace: seq<State>, i: nat, k: nat, j: nat)
    requires IsRun(trace) && i < |trace| && k < |trace[i].finished|
    requires trace[i].finished[k].batch.Some? && j < |trace[i].finished[k].batch.value|
    ensures var s := trace[i];
            var op := s.finished[k].batch.value[j];
            var first := s.base + 1 + |Ops(s.finished[..k])|;
            first + j <= s.lastSequence <= MAX_SEQUENCE && Entry(InternalKey(op.key, first + j, op.kind), op.value) in s.mem
  {
    RunKeepsInvariant(trace, i);
    var s := trace[i];
    var at := |Ops(s.finished[..k])| + j;
    OpOfBatch(s, k, j);
    hide Invariant;
    assert EntryOf(Applied(s), s.base, at) in Numbered(Applied(s), s.base);
  }

  lemma OpOfBatch(s: State, k: nat, j: nat)
    requires Invariant(s) && k < |s.finished| && s.finished[k].batch.Some? && j < |s.finished[k].batch.value|
    ensures var at := |Ops(s.finished[..k])| + j;
            && at < |Ops(s.finished)| <= |Applied(s)| && Applied(s)[at] == s.finished[k].batch.value[j]
            && s.base + 1 + at <= s.lastSequence <= MAX_SEQUENCE && s.mem == Numbered(Applied(s), s.base)
  {
    var to := s.finished[..k + 1];
    assert to == s.finished[..k] + [s.finished[k]] && to[..k] == s.finished[..k];
    assert s.finished == to + s.finished[k + 1..];
    OpsConcat(to, s.finished[k + 1..]);
    hide LeaderInvariant, SyncInvariant, Contiguous, Logged, LogOps, Numbered;
  }

  /** Whoever leads can always go on, and an idle front writer can take the lead, so long as numbers
      last. */
  lemma NeverStuck(s: State)
    requires Invariant(s) && s.queue != []
    requires s.lastSequence + |Ops(s.queue)| <= MAX_SEQUENCE
    ensures exists t :: Next(s, t) && t.joined == s.joined
  {
    if s.leader == Nobody {
      var n := GroupLength(s.queue);
      assert s.queue == s.queue[..n] + s.queue[n..];
      OpsConcat(s.queue[..n], s.queue[n..]);
      assert Lead(s, s.(leader := Leading(n, Ops(s.queue[..n]), false, false, 0)), n);
    } else if HasBatch(s) && !s.leader.logged {
      assert AddLog(s, s.(log := s.log + [Record(s.lastSequence + 1, s.leader.updates)], leader := s.leader.(logged := true)));
    } else if HasBatch(s) && s.queue[0].sync && !s.leader.synced {
      assert Sync(s, s.(durable := |LogOps(s.log)|, leader := s.leader.(synced := true)));
    } else if HasBatch(s) && s.leader.applied < |s.leader.updates| {
      var op := s.leader.updates[s.leader.applied];
      var e := Entry(InternalKey(op.key, s.lastSequence + 1 + s.leader.applied, op.kind), op.value);
      assert Insert(s, s.(mem := s.mem + {e}, leader := s.leader.(applied := s.leader.applied + 1)));
    } else {
      assert Release(s, s.(lastSequence := s.lastSequence + (if HasBatch(s) then |s.leader.updates| else 0),
                           finished := s.finished + s.queue[..s.leader.n], queue := s.queue[s.leader.n..], leader := Nobody));
    }
  }

  /** There is always a group to form. */
  lemma {:induction false} GroupLength(queue: seq<Writer>) returns (n: nat)
    requires queue != []
    ensures if queue[0].batch.Some? then IsGroup(queue, n) else n == 1
  {
    n := 1;
    if queue[0].batch.Some? {
      while n < |queue| && Joins(queue, n)
        invariant 1 <= n <= |queue|
        invariant forall i :: 0 < i < n ==> Joins(queue, i)
      {
        n := n + 1;
      }
    }
  }
}
