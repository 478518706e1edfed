/** The storage engine as a state machine: writes, memtable switches, flushes, compactions and
    snapshots.  The history of all writes is its specification; every run keeps every read right. */
module Engine {
  import opened Entries
  import opened Versions
  import opened VersionBuilder
  import opened CompactionInputs
  import opened Compactions
  import opened LevelInvariant
  import opened CleanCuts

  /** Everything that is searched by a read.  `imm` is empty when there is no immutable memtable. */
  datatype Store = Store(mem: set<Entry>, imm: set<Entry>, version: Version)

  ghost function Contents(st: Store): set<Entry> {
    st.mem + st.imm + VersionEntries(st.version)
  }

  /** Readers at or above `floor` cannot tell the two collections apart. */
  ghost predicate Agree(a: set<Entry>, b: set<Entry>, floor: nat) {
    forall u, s: SequenceNumber :: floor <= s ==> Visible(a, u, s) == Visible(b, u, s)
  }

  /** Memtables are searched before files, and rightly so. */
  ghost predicate Layered(st: Store) {
    && Newer(st.mem, st.imm)
    && Newer(st.mem + st.imm, VersionEntries(st.version))
  }

  ghost predicate UpTo(entries: set<Entry>, last: nat) {
    forall e :: e in entries ==> e.k.seqno <= last
  }

  /** `history` holds every entry ever written; `floor` is the highest snapshot below which a
      compaction may have thrown entries away. */
  datatype State = State(
    store: Store, lastSequence: nat, snapshots: seq<SequenceNumber>, nextFile: nat,
    history: set<Entry>, floor: nat)

  ghost predicate Consistent(s: State) {
    && WellShaped(s.store.version)
    && Layered(s.store)
    && Distinct(s.history) && UpTo(s.history, s.lastSequence)
    && Contents(s.store) <= s.history
    && Agree(Contents(s.store), s.history, s.floor)
    && s.floor <= s.lastSequence < MAX_SEQUENCE
    && (forall f :: f in AllFiles(s.store.version) ==> f.number < s.nextFile)
    && SnapshotsInOrder(s)
  }

  /** Snapshots are kept oldest first, and none of them is below the floor. */
  ghost predicate SnapshotsInOrder(s: State) {
    && (forall i :: 0 <= i < |s.snapshots| ==> s.floor <= s.snapshots[i] <= s.lastSequence)
    && (forall i, j :: 0 <= i < j < |s.snapshots| ==> s.snapshots[i] <= s.snapshots[j])
  }

  // ----- Reads -----

  /** What a read finds: the memtable first, then the immutable one, then the files. */
  ghost predicate ReadsAs(st: Store, u: UserKey, s: SequenceNumber, l: Lookup) {
    exists a, b, c ::
      && Reports(st.mem, u, s, a) && Reports(st.imm, u, s, b) && Reports(VersionEntries(st.version), u, s, c)
      && l == if a != Missing then a else if b != Missing then b else c
  }

  lemma LayeredRead(st: Store, u: UserKey, s: SequenceNumber, l: Lookup)
    requires Layered(st) && ReadsAs(st, u, s, l)
    ensures Reports(Contents(st), u, s, l)
  {
    var a, b, c :|
      && Reports(st.mem, u, s, a) && Reports(st.imm, u, s, b) && Reports(VersionEntries(st.version), u, s, c)
      && l == if a != Missing then a else if b != Missing then b else c;
    LayerRead(st.mem, st.imm, u, s, a, b);
    var ab := if a != Missing then a else b;
    LayerRead(st.mem + st.imm, VersionEntries(st.version), u, s, ab, c);
  }

  lemma LayerRead(upper: set<Entry>, lower: set<Entry>, u: UserKey, s: SequenceNumber, a: Lookup, b: Lookup)
    requires Newer(upper, lower) && Reports(upper, u, s, a) && Reports(lower, u, s, b)
    ensures Reports(upper + lower, u, s, if a != Missing then a else b)
  {
    if a != Missing {
      var e :| IsNewest(upper, u, s, e) && a == ToLookup(e);
      assert IsNewest(upper + lower, u, s, e);
    } else if b != Missing {
      var e :| IsNewest(lower, u, s, e) && b == ToLookup(e);
      assert IsNewest(upper + lower, u, s, e);
    }
  }

  /** A read at any snapshot not below the floor returns what the history of writes says. */
  lemma ReadIsRight(s: State, u: UserKey, snapshot: SequenceNumber, l: Lookup)
    requires Consistent(s) && s.floor <= snapshot && ReadsAs(s.store, u, snapshot, l)
    ensures Answer(l) == Visible(s.history, u, snapshot)
  {
    LayeredRead(s.store, u, snapshot, l);
    ReportsVisible(Contents(s.store), u, snapshot, l);
  }

  // ----- Writing -----

  /** Adding newer entries on top of two collections that agree keeps them in agreement. */
  lemma NewerOnTop(a: set<Entry>, b: set<Entry>, top: set<Entry>, floor: nat)
    requires Distinct(b + top) && a <= b && Newer(top, b) && Agree(a, b, floor)
    ensures Agree(a + top, b + top, floor)
  {
    forall u, s: SequenceNumber | floor <= s ensures Visible(a + top, u, s) == Visible(b + top, u, s) {
      if c :| c in top && Candidate(c, u, s) {
        var n := NewestExists(top, u, s, c);
        assert IsNewest(a + top, u, s, n) && IsNewest(b + top, u, s, n);
        VisibleIs(a + top, u, s, n);
        VisibleIs(b + top, u, s, n);
      } else {
        VisibleAgree(a, a + top, u, s);
        VisibleAgree(b, b + top, u, s);
      }
    }
  }

  datatype Op = Op(key: UserKey, kind: Kind, value: string)

  /** Entries of a batch, numbered from `first` in the order of its operations. */
  function BatchEntries(ops: seq<Op>, first: nat): (r: seq<Entry>)
    requires first + |ops| <= MAX_SEQUENCE
    ensures |r| == |ops|
    ensures forall i :: 0 <= i < |ops| ==> r[i].k.seqno == first + i
  {
    seq(|ops|, i requires 0 <= i < |ops| => Entry(InternalKey(ops[i].key, first + i, ops[i].kind), ops[i].value))
  }

  ghost predicate Write(s: State, t: State, ops: seq<Op>) {
    && s.lastSequence + |ops| < MAX_SEQUENCE
    && var new_ := ToSet(BatchEntries(ops, s.lastSequence + 1));
       t == s.(store := s.store.(mem := s.store.mem + new_), lastSequence := s.lastSequence + |ops|,
               history := s.history + new_)
  }

  lemma WriteKeepsConsistent(s: State, t: State, ops: seq<Op>)
    requires Consistent(s) && Write(s, t, ops)
    ensures Consistent(t)
  {
    var new_ := ToSet(BatchEntries(ops, s.lastSequence + 1));
    assert forall e :: e in new_ ==> s.lastSequence < e.k.seqno <= t.lastSequence;
    hide BatchEntries, WellShaped, Agree, AllFiles, VersionEntries;
    assert Distinct(s.history + new_) && Newer(new_, s.history);
    NewerOnTop(Contents(s.store), s.history, new_, s.floor);
    assert Contents(t.store) == Contents(s.store) + new_;
  }

  // ----- Switching memtables -----

  ghost predicate Switch(s: State, t: State) {
    && s.store.imm == {}
    && s.nextFile <= t.nextFile
    && t == s.(store := s.store.(mem := {}, imm := s.store.mem), nextFile := t.nextFile)
  }

  lemma SwitchKeepsConsistent(s: State, t: State)
    requires Consistent(s) && Switch(s, t)
    ensures Consistent(t)
  {
    assert Contents(t.store) == Contents(s.store);
    assert s.store.mem + s.store.imm == t.store.mem + t.store.imm;
  }

  // ----- Flushing -----

  ghost predicate Flush(s: State, t: State, level: nat, f: TableFile) {
    && level < NUM_LEVELS
    && ToSet(f.entries) == s.store.imm
    && (forall g :: g in AllFiles(s.store.version) ==> g.number < f.number)
    && s.nextFile <= t.nextFile && f.number < t.nextFile
    && ClearDownTo(s.store.version, level, f)
    && FileAdded(s.store.version, t.store.version, level, f)
    && t == s.(store := s.store.(imm := {}, version := t.store.version), nextFile := t.nextFile)
  }

  lemma FlushKeepsConsistent(s: State, t: State, level: nat, f: TableFile)
    requires Consistent(s) && Flush(s, t, level, f)
    ensures Consistent(t)
  {
    var v, w := s.store.version, t.store.version;
    forall g | g in AllFiles(v) ensures NewerFile(f, g) {
      FileWithinVersion(v, g);
    }
    FlushKeepsShape(v, w, level, f);
    FileAddedEntries(v, w, level, f);
    assert Contents(t.store) == Contents(s.store);
    forall g | g in AllFiles(w) ensures g.number < t.nextFile {
      var l :| 0 <= l < NUM_LEVELS && g in w[l];
      assert g in ToSet(w[l]);
      assert g == f || g in AllFiles(v);
    }
  }

  // ----- Compacting -----

  /** The oldest snapshot any reader may use. */
  function SmallestSnapshot(s: State): nat {
    if s.snapshots == [] then s.lastSequence else s.snapshots[0]
  }

  /** A compaction reads the inputs in key order, keeps what the drop rules keep, and installs the
      outputs, wherever it cuts them.  The snapshot it works with was the smallest when it started,
      so it may by now be lower than the smallest. */
  ghost predicate Compact(s: State, t: State, c: Inputs, input: seq<Entry>, snapshot: SequenceNumber, outs: seq<TableFile>) {
    && GoodInputs(s.store.version, c)
    && snapshot <= SmallestSnapshot(s)
    && Sorted(input) && ToSet(input) == InputEntries(c)
    && Concat(outs) == Kept(s.store.version, c.level, input, snapshot, |input|)
    && s.nextFile <= t.nextFile
    && (forall i :: 0 <= i < |outs| ==> outs[i].number < t.nextFile)
    && (forall i, f :: 0 <= i < |outs| && f in AllFiles(s.store.version) ==> f.number != outs[i].number)
    && (forall i, j :: 0 <= i < j < |outs| ==> outs[i].number != outs[j].number)
    && Replaced(s.store.version, t.store.version, c, ToSet(outs))
    && t == s.(store := s.store.(version := t.store.version), nextFile := t.nextFile, floor := t.floor)
    && t.floor == (if snapshot > s.floor then snapshot else s.floor)
  }

  lemma InputsWithinVersion(v: Version, c: Inputs)
    requires GoodInputs(v, c)
    ensures InputEntries(c) <= VersionEntries(v)
  {
    forall e | e in InputEntries(c) ensures e in VersionEntries(v) {
      var f :| f in c.in0 + c.in1 && e in f.entries;
      var l := if f in c.in0 then c.level else c.level + 1;
      assert f in v[l] && e in LevelEntries(v[l]);
    }
  }

  lemma CompactKeepsVersion(s: State, t: State, c: Inputs, input: seq<Entry>, snapshot: SequenceNumber, outs: seq<TableFile>)
    requires Consistent(s) && Compact(s, t, c, input, snapshot, outs)
    ensures WellShaped(t.store.version) <==> !LeavesStale(s.store.version, c, input, snapshot)
    ensures forall f :: f in AllFiles(t.store.version) ==> f.number < t.nextFile
  {
    var v, w := s.store.version, t.store.version;
    FreshNumbersIdentify(v, outs);
    VersionIsDistinct(s);
    hide GoodInputs, WellShaped, Kept, Concat, Agree, Identified, LeavesStale, Replaced;
    CompactionKeepsShapeExactly(v, w, c, input, snapshot, outs);
    ReplacedFiles(v, w, c, ToSet(outs));
  }

  lemma VersionIsDistinct(s: State)
    requires Consistent(s)
    ensures Distinct(VersionEntries(s.store.version))
    ensures Distinct(s.store.mem + s.store.imm + VersionEntries(s.store.version))
  {
    hide VersionEntries, WellShaped, Agree;
    assert VersionEntries(s.store.version) <= Contents(s.store);
  }

  lemma FreshNumbersIdentify(v: Version, outs: seq<TableFile>)
    requires Identified(AllFiles(v))
    requires forall i, f :: 0 <= i < |outs| && f in AllFiles(v) ==> f.number != outs[i].number
    requires forall i, j :: 0 <= i < j < |outs| ==> outs[i].number != outs[j].number
    ensures Identified(AllFiles(v) + ToSet(outs))
  {
  }

  lemma ReplacedFiles(v: Version, w: Version, c: Inputs, outs: set<TableFile>)
    requires Replaced(v, w, c, outs)
    ensures AllFiles(w) <= AllFiles(v) + outs
  {
    forall f | f in AllFiles(w) ensures f in AllFiles(v) + outs {
      var l :| 0 <= l < NUM_LEVELS && f in w[l];
    }
  }

  /** Replacing the inputs by the outputs changes no read at or above the snapshot if and only if no
      deletion is dropped that hides a value in a file that is not compacted. */
  lemma CompactionReadsExactly(v: Version, w: Version, c: Inputs, input: seq<Entry>, snapshot: SequenceNumber,
                               outs: seq<TableFile>)
    requires Distinct(VersionEntries(v)) && GoodInputs(v, c) && Replaced(v, w, c, ToSet(outs))
    requires Sorted(input) && ToSet(input) == InputEntries(c)
    requires Concat(outs) == Kept(v, c.level, input, snapshot, |input|)
    ensures VersionEntries(w) <= VersionEntries(v)
    ensures Agree(VersionEntries(w), VersionEntries(v), snapshot)
            <==> !Uncovers(v, c.level, RestEntries(v, c), input, snapshot)
  {
    CompactionSplits(v, w, c, input, snapshot, outs);
    hide GoodInputs, Replaced, VersionEntries, Kept, Concat, RestEntries, InputEntries, Uncovers;
    MergeIsExact(v, c.level, RestEntries(v, c), input, snapshot);
  }

  /** So a compaction does no harm, to the shape of the version or to any read at or above its
      snapshot, if and only if it is harmless before it starts. */
  lemma CompactionIsHarmlessExactly(v: Version, w: Version, c: Inputs, input: seq<Entry>, snapshot: SequenceNumber,
                                    outs: seq<TableFile>)
    requires WellShaped(v) && Distinct(VersionEntries(v)) && GoodInputs(v, c)
    requires Replaced(v, w, c, ToSet(outs)) && Identified(AllFiles(v) + ToSet(outs))
    requires Sorted(input) && ToSet(input) == InputEntries(c)
    requires Concat(outs) == Kept(v, c.level, input, snapshot, |input|)
    ensures WellShaped(w) && Agree(VersionEntries(w), VersionEntries(v), snapshot) <==> Harmless(v, c, input, snapshot)
  {
    hide GoodInputs, Replaced, VersionEntries, Kept, Concat, RestEntries, InputEntries, Uncovers, WellShaped, Identified, LeavesStale, Agree;
    CompactionKeepsShapeExactly(v, w, c, input, snapshot, outs);
    CompactionReadsExactly(v, w, c, input, snapshot, outs);
  }

  lemma CompactionSplits(v: Version, w: Version, c: Inputs, input: seq<Entry>, snapshot: SequenceNumber,
                         outs: seq<TableFile>)
    requires GoodInputs(v, c) && Replaced(v, w, c, ToSet(outs)) && ToSet(input) == InputEntries(c)
    requires Concat(outs) == Kept(v, c.level, input, snapshot, |input|)
    ensures VersionEntries(v) == RestEntries(v, c) + ToSet(input)
    ensures VersionEntries(w) == RestEntries(v, c) + ToSet(Kept(v, c.level, input, snapshot, |input|))
    ensures VersionEntries(w) <= VersionEntries(v)
  {
    hide GoodInputs, Replaced, VersionEntries, Kept, Concat, RestEntries, InputEntries;
    SplitEntries(v, w, c, ToSet(outs));
    OutputsAreDrawn(v, c, input, snapshot, outs);
    KeptMembers(v, c.level, input, snapshot, |input|);
    assert ToSet(Kept(v, c.level, input, snapshot, |input|)) <= ToSet(input);
  }

  /** Memtables lie on top and change nothing about it. */
  lemma CompactKeepsContents(s: State, t: State, c: Inputs, input: seq<Entry>, snapshot: SequenceNumber, outs: seq<TableFile>)
    requires Consistent(s) && Compact(s, t, c, input, snapshot, outs)
    requires !Uncovers(s.store.version, c.level, RestEntries(s.store.version, c), input, snapshot)
    ensures Contents(t.store) <= Contents(s.store)
    ensures VersionEntries(t.store.version) <= VersionEntries(s.store.version)
    ensures Agree(Contents(t.store), Contents(s.store), snapshot)
  {
    var top, v, w := s.store.mem + s.store.imm, s.store.version, t.store.version;
    VersionIsDistinct(s);
    CompactionReadsExactly(v, w, c, input, snapshot, outs);
    hide GoodInputs, Replaced, VersionEntries, Kept, Concat, RestEntries, InputEntries, Uncovers, Agree, WellShaped;
    assert VersionEntries(v) + top == Contents(s.store) && VersionEntries(w) + top == Contents(t.store);
    NewerOnTop(VersionEntries(w), VersionEntries(v), top, snapshot);
  }

  lemma CompactKeepsConsistent(s: State, t: State, c: Inputs, input: seq<Entry>, snapshot: SequenceNumber, outs: seq<TableFile>)
    requires Consistent(s) && Compact(s, t, c, input, snapshot, outs) && Harmless(s.store.version, c, input, snapshot)
    ensures Consistent(t)
  {
    CompactKeepsVersion(s, t, c, input, snapshot, outs);
    CompactKeepsContents(s, t, c, input, snapshot, outs);
    hide GoodInputs, Replaced, VersionEntries, Kept, Concat, RestEntries, InputEntries, Uncovers, WellShaped, LeavesStale, AllFiles;
  }

  /** A file moved down unchanged: one input, none at the next level. */
  ghost predicate TrivialMove(s: State, t: State, c: Inputs) {
    && GoodInputs(s.store.version, c) && |c.in0| == 1 && c.in1 == []
    && Replaced(s.store.version, t.store.version, c, {c.in0[0]})
    && t == s.(store := s.store.(version := t.store.version))
  }

  lemma TrivialMoveKeepsConsistent(s: State, t: State, c: Inputs)
    requires Consistent(s) && TrivialMove(s, t, c)
    ensures Consistent(t) <==> NoneGoesOn(s.store.version, c)
  {
    var v, w, f := s.store.version, t.store.version, c.in0[0];
    assert f in c.in0 && f in v[c.level];
    assert AllFiles(v) + {f} == AllFiles(v);
    VersionIsDistinct(s);
    MoveKeepsAgeOrder(v, w, c);
    ReplacedFiles(v, w, c, {f});
    MovedEntries(v, w, c);
    hide GoodInputs, Replaced, VersionEntries, WellShaped, Agree, NoneGoesOn;
  }

  lemma MovedEntries(v: Version, w: Version, c: Inputs)
    requires GoodInputs(v, c) && |c.in0| == 1 && c.in1 == [] && Replaced(v, w, c, {c.in0[0]})
    ensures VersionEntries(w) == VersionEntries(v)
  {
    SplitEntries(v, w, c, {c.in0[0]});
    SingleInputIsDrawn(c);
  }

  // ----- Snapshots -----

  ghost predicate GetSnapshot(s: State, t: State) {
    && s.lastSequence <= MAX_SEQUENCE
    && t == s.(snapshots := s.snapshots + [s.lastSequence])
  }

  ghost predicate ReleaseSnapshot(s: State, t: State, i: nat) {
    && i < |s.snapshots|
    && t == s.(snapshots := s.snapshots[..i] + s.snapshots[i + 1..])
  }

  lemma SnapshotsKeepConsistent(s: State, t: State)
    requires Consistent(s) && (GetSnapshot(s, t) || exists i :: ReleaseSnapshot(s, t, i))
    ensures Consistent(t)
  {
  }

  // ----- Runs -----

  ghost predicate Init(s: State) {
    && s.store == Store({}, {}, EmptyVersion())
    && s.lastSequence == 0 && s.snapshots == [] && s.history == {} && s.floor == 0
  }

  datatype Event =
    | WriteEvent(ops: seq<Op>)
    | SwitchEvent
    | FlushEvent(level: nat, f: TableFile)
    | CompactEvent(c: Inputs, input: seq<Entry>, snapshot: SequenceNumber, outs: seq<TableFile>)
    | MoveEvent(c: Inputs)
    | GetSnapshotEvent
    | ReleaseSnapshotEvent(i: nat)

  ghost predicate Next(s: State, t: State, event: Event) {
    match event
    case WriteEvent(ops) => Write(s, t, ops)
    case SwitchEvent => Switch(s, t)
    case FlushEvent(level, f) => Flush(s, t, level, f)
    case CompactEvent(c, input, snapshot, outs) => Compact(s, t, c, input, snapshot, outs)
    case MoveEvent(c) => TrivialMove(s, t, c)
    case GetSnapshotEvent => GetSnapshot(s, t)
    case ReleaseSnapshotEvent(i) => ReleaseSnapshot(s, t, i)
  }

  lemma InitIsConsistent(s: State)
    requires Init(s)
    ensures Consistent(s)
  {
    var v := s.store.version;
    assert forall l :: 0 <= l < NUM_LEVELS ==> v[l] == [];
    assert AllFiles(v) == {};
    assert VersionEntries(v) == {};
  }

  /** What can be asked about a step before it is taken. */
  ghost predicate HarmlessStep(s: State, event: Event) {
    match event
    case CompactEvent(c, input, snapshot, _) => c.level < NUM_LEVELS && Harmless(s.store.version, c, input, snapshot)
    case MoveEvent(c) => c.level + 1 < NUM_LEVELS && NoneGoesOn(s.store.version, c)
    case _ => true
  }

  lemma NextKeepsConsistent(s: State, t: State, event: Event)
    requires Consistent(s) && Next(s, t, event) && HarmlessStep(s, event)
    ensures Consistent(t)
  {
    match event
    case WriteEvent(ops) => WriteKeepsConsistent(s, t, ops);
    case SwitchEvent => SwitchKeepsConsistent(s, t);
    case FlushEvent(level, f) => FlushKeepsConsistent(s, t, level, f);
    case CompactEvent(c, input, snapshot, outs) => CompactKeepsConsistent(s, t, c, input, snapshot, outs);
    case MoveEvent(c) => TrivialMoveKeepsConsistent(s, t, c);
    case GetSnapshotEvent => SnapshotsKeepConsistent(s, t);
    case ReleaseSnapshotEvent(i) => SnapshotsKeepConsistent(s, t);
  }

  ghost predicate IsRun(states: seq<State>, events: seq<Event>) {
    && |states| == |events| + 1
    && Init(states[0])
    && forall i :: 0 <= i < |events| ==> Next(states[i], states[i + 1], events[i])
  }

  ghost predicate HarmlessRun(states: seq<State>, events: seq<Event>)
    requires |states| == |events| + 1
  {
    forall i :: 0 <= i < |events| ==> HarmlessStep(states[i], events[i])
  }

  lemma {:induction false} RunKeepsConsistent(states: seq<State>, events: seq<Event>, n: nat)
    requires IsRun(states, events) && HarmlessRun(states, events) && n < |states|
    ensures Consistent(states[n])
  {
    hide Consistent, Next, HarmlessStep, Init;
    if n == 0 {
      InitIsConsistent(states[0]);
    } else {
      RunKeepsConsistent(states, events, n - 1);
      NextKeepsConsistent(states[n - 1], states[n], events[n - 1]);
    }
  }

  /** In every run of harmless compactions, every read through a live snapshot, and every read of the
      latest data, returns the newest value written for the key up to that point. */
  lemma EveryReadIsRight(states: seq<State>, events: seq<Event>, n: nat, u: UserKey, snapshot: SequenceNumber, l: Lookup)
    requires IsRun(states, events) && HarmlessRun(states, events) && n < |states|
    requires snapshot in states[n].snapshots || snapshot == states[n].lastSequence
    requires ReadsAs(states[n].store, u, snapshot, l)
    ensures Answer(l) == Visible(states[n].history, u, snapshot)
  {
    RunKeepsConsistent(states, events, n);
    ReadIsRight(states[n], u, snapshot, l);
  }

  /** The level invariant holds of every version of such a run. */
  lemma EveryVersionIsWellShaped(states: seq<State>, events: seq<Event>, n: nat)
    requires IsRun(states, events) && HarmlessRun(states, events) && n < |states|
    ensures WellShaped(states[n].store.version) && Searchable(states[n].store.version)
  {
    RunKeepsConsistent(states, events, n);
    WellShapedIsSearchable(states[n].store.version);
  }

  // ----- Runs whose compactions see no older snapshot -----

  /** Every reader sees every entry that is compacted. */
  ghost predicate UnobservedStep(event: Event) {
    event.CompactEvent? ==> forall e :: e in event.input ==> e.k.seqno <= event.snapshot
  }

  /** While no user key spans two files every compaction is harmless, and without an older snapshot it
      stays that way. */
  lemma UnobservedKeepsClean(s: State, t: State, event: Event)
    requires Consistent(s) && Next(s, t, event) && Clean(s.store.version)
    ensures HarmlessStep(s, event)
    ensures UnobservedStep(event) ==> Clean(t.store.version)
  {
    var v, w := s.store.version, t.store.version;
    match event
    case FlushEvent(level, f) =>
      FlushKeepsClean(v, w, level, f);
    case CompactEvent(c, input, snapshot, outs) =>
      VersionIsDistinct(s);
      CleanMeansNoneGoesOn(v, c);
      NoneGoesOnIsHarmless(v, c, input, snapshot);
      if UnobservedStep(event) {
        NoSnapshotMeansCleanCut(v, c.level, input, snapshot, outs);
        CleanIsDisjoint(outs);
        OutputsAreDrawn(v, c, input, snapshot, outs);
        hide *;
        CleanCutKeepsClean(v, w, c, ToSet(outs));
      }
    case MoveEvent(c) =>
      CleanMeansNoneGoesOn(v, c);
      SingleInputIsDrawn(c);
      hide *;
      CleanCutKeepsClean(v, w, c, {c.in0[0]});
    case _ =>
  }

  lemma FlushKeepsClean(v: Version, w: Version, level: nat, f: TableFile)
    requires Clean(v) && level < NUM_LEVELS && FileAdded(v, w, level, f) && ClearDownTo(v, level, f)
    ensures Clean(w)
  {
    forall g | g in v[level] && level > 0 ensures Apart(f, g) {
      ClearMeansApart(v, level, f, level, g);
    }
  }

  lemma {:induction false} UnobservedRunIsClean(states: seq<State>, events: seq<Event>, n: nat)
    requires IsRun(states, events) && n < |states|
    requires forall i :: 0 <= i < |events| ==> UnobservedStep(events[i])
    ensures Consistent(states[n]) && Clean(states[n].store.version)
  {
    hide Consistent, Next, HarmlessStep, UnobservedStep;
    if n == 0 {
      InitIsConsistent(states[0]);
      assert forall l :: 0 <= l < NUM_LEVELS ==> states[0].store.version[l] == [];
    } else {
      UnobservedRunIsClean(states, events, n - 1);
      UnobservedKeepsClean(states[n - 1], states[n], events[n - 1]);
      NextKeepsConsistent(states[n - 1], states[n], events[n - 1]);
    }
  }

  /** Every run in which no snapshot is older than what is compacted is a run of harmless compactions,
      and no user key ever spans two files of a level. */
  lemma UnobservedRunIsHarmless(states: seq<State>, events: seq<Event>)
    requires IsRun(states, events)
    requires forall i :: 0 <= i < |events| ==> UnobservedStep(events[i])
    ensures HarmlessRun(states, events)
    ensures forall n, l :: 0 <= n < |states| && 1 <= l < NUM_LEVELS ==> CleanCut(states[n].store.version[l])
  {
    forall n | 0 <= n < |states| ensures Consistent(states[n]) && Clean(states[n].store.version) {
      UnobservedRunIsClean(states, events, n);
    }
    hide Clean, Next, HarmlessStep, UnobservedStep, Init;
    forall i | 0 <= i < |events| ensures HarmlessStep(states[i], events[i]) {
      UnobservedKeepsClean(states[i], states[i + 1], events[i]);
    }
    forall n | 0 <= n < |states| ensures forall l :: 1 <= l < NUM_LEVELS ==> CleanCut(states[n].store.version[l]) {
      WellShapedIsSearchable(states[n].store.version);
    }
  }
}
