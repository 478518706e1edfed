/** What the engine is for: a map from keys to values.  Writes update it, reads look it up, and a
    snapshot is the map of an earlier moment.  Sequence numbers, files and levels do not appear in it. */
module PlainMaps {
  import opened Entries
  import opened Versions
  import LevelInvariant
  import opened Engine

  type Table = map<UserKey, string>

  function Apply(m: Table, op: Op): Table {
    match op.kind
    case Value => m[op.key := op.value]
    case Deletion => m - {op.key}
  }

  /** The operations of a batch one after the other. */
  function ApplyAll(m: Table, ops: seq<Op>): Table
    decreases |ops|
  {
    if ops == [] then m else Apply(ApplyAll(m, ops[..|ops| - 1]), ops[|ops| - 1])
  }

  function At(m: Table, u: UserKey): Option<string> {
    if u in m then Some(m[u]) else None
  }

  // ----- One batch -----

  /** What an operation leaves for readers of its key. */
  function Left(op: Op): Option<string> {
    match op.kind
    case Value => Some(op.value)
    case Deletion => None
  }

  /** No later operation of the batch has the same key. */
  predicate IsLast(ops: seq<Op>, i: nat) {
    i < |ops| && forall j :: i < j < |ops| ==> ops[j].key != ops[i].key
  }

  predicate Untouched(ops: seq<Op>, u: UserKey) {
    forall i :: 0 <= i < |ops| ==> ops[i].key != u
  }

  lemma BatchMember(ops: seq<Op>, first: nat, i: nat) returns (e: Entry)
    requires first + |ops| <= MAX_SEQUENCE && i < |ops|
    ensures e in ToSet(BatchEntries(ops, first)) && e.k == InternalKey(ops[i].key, first + i, ops[i].kind)
    ensures Payload(e) == Left(ops[i])
  {
    e := BatchEntries(ops, first)[i];
  }

  lemma MemberOfBatch(ops: seq<Op>, first: nat, e: Entry) returns (i: nat)
    requires first + |ops| <= MAX_SEQUENCE && e in ToSet(BatchEntries(ops, first))
    ensures i < |ops| && e == BatchEntries(ops, first)[i] && e.k == InternalKey(ops[i].key, first + i, ops[i].kind)
  {
    i :| 0 <= i < |ops| && BatchEntries(ops, first)[i] == e;
  }

  /** A batch on top of older entries leaves them one collection in which nothing has two entries of one
      number. */
  lemma BatchIsDistinct(h: set<Entry>, ops: seq<Op>, first: nat)
    requires Distinct(h) && 0 < first && UpTo(h, first - 1) && first + |ops| <= MAX_SEQUENCE
    ensures Distinct(h + ToSet(BatchEntries(ops, first)))
    ensures UpTo(h + ToSet(BatchEntries(ops, first)), first + |ops| - 1)
  {
    var top := ToSet(BatchEntries(ops, first));
    forall e | e in top ensures first <= e.k.seqno < first + |ops| {
      var i := MemberOfBatch(ops, first, e);
    }
    forall a, b | a in top && b in top && a.k.seqno == b.k.seqno ensures a == b {
      var i := MemberOfBatch(ops, first, a);
      var j := MemberOfBatch(ops, first, b);
      assert i == j;
    }
  }

  /** Readers behind a batch see, of a key that it touches, what its last operation on the key left. */
  lemma LastIsVisible(h: set<Entry>, ops: seq<Op>, first: nat, i: nat, s: SequenceNumber)
    requires Distinct(h) && 0 < first && UpTo(h, first - 1) && first + |ops| <= MAX_SEQUENCE
    requires IsLast(ops, i) && first + |ops| - 1 <= s
    ensures Visible(h + ToSet(BatchEntries(ops, first)), ops[i].key, s) == Left(ops[i])
  {
    var after := h + ToSet(BatchEntries(ops, first));
    BatchIsDistinct(h, ops, first);
    var e := BatchMember(ops, first, i);
    forall o | o in after && Candidate(o, ops[i].key, s) ensures o.k.seqno <= e.k.seqno {
      if o !in h {
        var j := MemberOfBatch(ops, first, o);
        assert !(i < j);
      }
    }
    hide BatchEntries;
    assert IsNewest(after, ops[i].key, s, e);
    VisibleIs(after, ops[i].key, s, e);
  }

  /** Of other keys they see what readers in front of it saw, and so do older readers of any key. */
  lemma RestIsUnchanged(h: set<Entry>, ops: seq<Op>, first: nat, u: UserKey, before: SequenceNumber, s: SequenceNumber)
    requires Distinct(h) && 0 < first && UpTo(h, first - 1) && first + |ops| <= MAX_SEQUENCE
    requires s == before < first || (Untouched(ops, u) && first - 1 <= before && first - 1 <= s)
    ensures Visible(h + ToSet(BatchEntries(ops, first)), u, s) == Visible(h, u, before)
  {
    var after := h + ToSet(BatchEntries(ops, first));
    BatchIsDistinct(h, ops, first);
    forall e | Candidate(e, u, s) ensures e in h <==> e in after {
      if e in after && e !in h {
        var i := MemberOfBatch(ops, first, e);
      }
    }
    VisibleAgree(h, after, u, s);
    SameCandidates(h, u, s, before);
  }

  lemma SameCandidates(h: set<Entry>, u: UserKey, s: SequenceNumber, t: SequenceNumber)
    requires Distinct(h) && (s == t || (UpTo(h, s) && UpTo(h, t)))
    ensures Visible(h, u, s) == Visible(h, u, t)
  {
    if c :| c in h && Candidate(c, u, s) {
      var e := NewestExists(h, u, s, c);
      assert IsNewest(h, u, t, e);
      VisibleIs(h, u, s, e);
      VisibleIs(h, u, t, e);
    } else {
      VisibleNone(h, u, s);
      VisibleNone(h, u, t);
    }
  }

  /** What readers see of a write: of each key in the batch its last operation, of other keys what was
      there before; and older readers see no difference. */
  lemma WriteIsSeen(s: State, t: State, ops: seq<Op>)
    requires Consistent(s) && Write(s, t, ops)
    ensures t.lastSequence <= MAX_SEQUENCE
    ensures forall i: nat :: IsLast(ops, i) ==> Visible(t.history, ops[i].key, t.lastSequence) == Left(ops[i])
    ensures forall u :: Untouched(ops, u) ==> Visible(t.history, u, t.lastSequence) == Visible(s.history, u, s.lastSequence)
    ensures forall u, r: SequenceNumber :: r <= s.lastSequence ==> Visible(t.history, u, r) == Visible(s.history, u, r)
  {
    var h, first := s.history, s.lastSequence + 1;
    hide LevelInvariant.WellShaped, Agree, Layered, SnapshotsInOrder, BatchEntries, Visible;
    forall i: nat | IsLast(ops, i) ensures Visible(t.history, ops[i].key, t.lastSequence) == Left(ops[i]) {
      LastIsVisible(h, ops, first, i, t.lastSequence);
    }
    forall u | Untouched(ops, u) ensures Visible(t.history, u, t.lastSequence) == Visible(h, u, s.lastSequence) {
      RestIsUnchanged(h, ops, first, u, s.lastSequence, t.lastSequence);
    }
    forall u, r: SequenceNumber | r <= s.lastSequence ensures Visible(t.history, u, r) == Visible(h, u, r) {
      RestIsUnchanged(h, ops, first, u, r, r);
    }
  }

  lemma {:induction false} AppliedUntouched(m: Table, ops: seq<Op>, u: UserKey)
    requires Untouched(ops, u)
    ensures At(ApplyAll(m, ops), u) == At(m, u)
    decreases |ops|
  {
    if ops != [] {
      AppliedUntouched(m, ops[..|ops| - 1], u);
    }
  }

  lemma {:induction false} AppliedLast(m: Table, ops: seq<Op>, i: nat)
    requires IsLast(ops, i)
    ensures At(ApplyAll(m, ops), ops[i].key) == Left(ops[i])
    decreases |ops|
  {
    var front := ops[..|ops| - 1];
    if i < |front| {
      assert front[i] == ops[i] && IsLast(front, i);
      AppliedLast(m, front, i);
    }
  }

  lemma {:induction false} LastExists(ops: seq<Op>, u: UserKey) returns (i: nat)
    requires !Untouched(ops, u)
    ensures i < |ops| && IsLast(ops, i) && ops[i].key == u
    decreases |ops|
  {
    var n := |ops| - 1;
    if ops[n].key == u {
      i := n;
    } else {
      i := LastExists(ops[..n], u);
    }
  }

  /** Readers of the latest data see exactly the map. */
  ghost predicate Shows(h: set<Entry>, m: Table) {
    forall u, s: SequenceNumber :: UpTo(h, s) ==> Visible(h, u, s) == At(m, u)
  }

  lemma ShownTo(h: set<Entry>, m: Table, u: UserKey, s: SequenceNumber)
    requires Shows(h, m) && UpTo(h, s)
    ensures Visible(h, u, s) == At(m, u)
  {
  }

  /** Writing a batch is applying its operations to the map. */
  lemma BatchShows(h: set<Entry>, m: Table, ops: seq<Op>, first: nat)
    requires Distinct(h) && 0 < first && UpTo(h, first - 1) && first + |ops| <= MAX_SEQUENCE && Shows(h, m)
    ensures Shows(h + ToSet(BatchEntries(ops, first)), ApplyAll(m, ops))
  {
    var after := h + ToSet(BatchEntries(ops, first));
    BatchIsDistinct(h, ops, first);
    hide BatchEntries, ApplyAll, At, Visible, Distinct;
    forall u, s: SequenceNumber | UpTo(after, s) ensures Visible(after, u, s) == At(ApplyAll(m, ops), u) {
      ShownAt(h, m, ops, first, u);
      SameCandidates(after, u, s, first + |ops| - 1);
    }
  }

  lemma ShownAt(h: set<Entry>, m: Table, ops: seq<Op>, first: nat, u: UserKey)
    requires Distinct(h) && 0 < first && UpTo(h, first - 1) && first + |ops| <= MAX_SEQUENCE && Shows(h, m)
    ensures Visible(h + ToSet(BatchEntries(ops, first)), u, first + |ops| - 1) == At(ApplyAll(m, ops), u)
  {
    var last, before: SequenceNumber := first + |ops| - 1, first - 1;
    assert Visible(h, u, before) == At(m, u);
    hide *;
    if Untouched(ops, u) {
      AppliedUntouched(m, ops, u);
      RestIsUnchanged(h, ops, first, u, first - 1, last);
    } else {
      var i := LastExists(ops, u);
      AppliedLast(m, ops, i);
      LastIsVisible(h, ops, first, i, last);
    }
  }

  // ----- Runs of the engine -----

  /** The map after the first `n` events: only writes change it. */
  ghost function MapAfter(events: seq<Event>, n: nat): Table
    requires n <= |events|
  {
    if n == 0 then map[]
    else if events[n - 1].WriteEvent? then ApplyAll(MapAfter(events, n - 1), events[n - 1].ops)
    else MapAfter(events, n - 1)
  }

  lemma StepKeepsOlder(s: State, t: State, event: Event, u: UserKey, r: SequenceNumber)
    requires Consistent(s) && Next(s, t, event) && r <= s.lastSequence
    ensures Visible(t.history, u, r) == Visible(s.history, u, r)
    ensures s.lastSequence <= t.lastSequence
  {
    hide LevelInvariant.WellShaped, Agree, Compact, TrivialMove, Flush, Layered, BatchEntries, Visible;
    if event.WriteEvent? {
      RestIsUnchanged(s.history, event.ops, s.lastSequence + 1, u, r, r);
    } else {
      OnlyWritesAddHistory(s, t, event);
    }
  }

  lemma OnlyWritesAddHistory(s: State, t: State, event: Event)
    requires Next(s, t, event) && !event.WriteEvent?
    ensures t.history == s.history && t.lastSequence == s.lastSequence
  {
  }

  lemma StepShows(s: State, t: State, event: Event, m: Table)
    requires Consistent(s) && Next(s, t, event) && Shows(s.history, m)
    ensures Shows(t.history, if event.WriteEvent? then ApplyAll(m, event.ops) else m)
  {
    hide LevelInvariant.WellShaped, Agree, Compact, TrivialMove, Flush, Layered, BatchEntries, Shows;
    if event.WriteEvent? {
      BatchShows(s.history, m, event.ops, s.lastSequence + 1);
    } else {
      OnlyWritesAddHistory(s, t, event);
    }
  }

  lemma NothingShows()
    ensures Shows({}, map[])
  {
    forall u, s: SequenceNumber ensures Visible({}, u, s) == None {
      VisibleNone({}, u, s);
    }
  }

  lemma {:induction false} RunShows(states: seq<State>, events: seq<Event>, n: nat)
    requires IsRun(states, events) && HarmlessRun(states, events) && n < |states|
    ensures Shows(states[n].history, MapAfter(events, n))
  {
    if n == 0 {
      NothingShows();
    } else {
      RunKeepsConsistent(states, events, n - 1);
      RunShows(states, events, n - 1);
      hide Consistent, Shows, HarmlessStep, Next, ApplyAll;
      StepShows(states[n - 1], states[n], events[n - 1], MapAfter(events, n - 1));
    }
  }

  lemma {:induction false} OlderStaysVisible(states: seq<State>, events: seq<Event>, k: nat, n: nat, u: UserKey)
    requires IsRun(states, events) && HarmlessRun(states, events) && k <= n < |states|
    ensures states[k].lastSequence <= MAX_SEQUENCE && states[k].lastSequence <= states[n].lastSequence
    ensures Visible(states[n].history, u, states[k].lastSequence) == Visible(states[k].history, u, states[k].lastSequence)
    decreases n
  {
    hide Visible, Next, HarmlessStep, Init, LevelInvariant.WellShaped, Agree, Layered;
    RunKeepsConsistent(states, events, k);
    if k < n {
      OlderStaysVisible(states, events, k, n - 1, u);
      RunKeepsConsistent(states, events, n - 1);
      StepKeepsOlder(states[n - 1], states[n], events[n - 1], u, states[k].lastSequence);
    }
  }

  /** In every run of harmless steps, whatever was flushed, compacted or moved in between, a read through
      a snapshot looks up the map as it was when the snapshot was taken, and a read of the latest data
      looks up the map as it is. */
  lemma EveryReadIsOfTheMap(states: seq<State>, events: seq<Event>, k: nat, n: nat, u: UserKey, l: Lookup)
    requires IsRun(states, events) && HarmlessRun(states, events) && k <= n < |states|
    requires states[k].lastSequence <= MAX_SEQUENCE
    requires k == n || states[k].lastSequence in states[n].snapshots
    requires ReadsAs(states[n].store, u, states[k].lastSequence, l)
    ensures Answer(l) == At(MapAfter(events, k), u)
  {
    RunKeepsConsistent(states, events, k);
    assert UpTo(states[k].history, states[k].lastSequence);
    RunShows(states, events, k);
    assert Visible(states[k].history, u, states[k].lastSequence) == At(MapAfter(events, k), u);
    hide Consistent, Shows, Visible, ReadsAs, IsRun, HarmlessRun, MapAfter;
    OlderStaysVisible(states, events, k, n, u);
    EveryReadIsRight(states, events, n, u, states[k].lastSequence, l);
  }
}
