/** The skip list: one writer, readers that take no lock.  Every pointer load and store is a step of
    its own; steps of the writer and of a reader interleave freely. */
module SkipList {
  import opened Entries

  /** A node is named by a number; the head stands before all keys. */
  type NodeId = nat
  const HEAD: NodeId := 0
  const MAX_HEIGHT := 12

  /** Nodes and their links.  `linked[l]` lists the nodes already published at level `l`. */
  datatype Links = Links(
    keys: map<NodeId, real>,
    next: map<(NodeId, nat), Option<NodeId>>,
    maxHeight: nat,
    linked: seq<set<NodeId>>)

  // ----- Order of nodes -----

  /** Key of a node, for statements about nodes whose presence is itself to be shown. */
  function KeyOf(s: Links, x: NodeId): real {
    if x in s.keys then s.keys[x] else 0.0
  }

  /** What is in the list: the nodes published at level 0. */
  function Nodes(s: Links): set<NodeId> {
    if |s.linked| > 0 then s.linked[0] else {}
  }

  predicate IsNode(s: Links, x: NodeId) {
    x == HEAD || x in s.keys
  }

  /** `x` stands before `key`; the head stands before everything. */
  predicate Before(s: Links, x: NodeId, key: real)
    requires IsNode(s, x)
  {
    x == HEAD || s.keys[x] < key
  }

  ghost predicate WellTyped(s: Links) {
    && |s.linked| == MAX_HEIGHT && 1 <= s.maxHeight <= MAX_HEIGHT
    && HEAD !in s.keys
    && (forall l, x :: 0 <= l < MAX_HEIGHT && x in s.linked[l] ==> x in s.keys)
    && (forall l, x :: 0 <= l < MAX_HEIGHT && (x == HEAD || x in s.linked[l]) ==> (x, l) in s.next)
  }

  /** `r` is the first node published at level `l` behind `x`. */
  ghost predicate IsSuccessor(s: Links, l: nat, x: NodeId, r: Option<NodeId>)
    requires WellTyped(s) && l < MAX_HEIGHT && IsNode(s, x)
  {
    match r
    case None => forall z :: z in s.linked[l] ==> !Before(s, x, s.keys[z])
    case Some(y) => y in s.linked[l] && Before(s, x, s.keys[y])
                    && forall z :: z in s.linked[l] && Before(s, x, s.keys[z]) ==> s.keys[y] <= s.keys[z]
  }

  /** Every level links its nodes in key order, and is a sublist of the level below. */
  ghost predicate WellLinked(s: Links) {
    && WellTyped(s)
    && (forall x, y :: x in s.keys && y in s.keys && s.keys[x] == s.keys[y] ==> x == y)
    && (forall l, x :: 0 <= l < MAX_HEIGHT && (x == HEAD || x in s.linked[l]) ==> IsSuccessor(s, l, x, s.next[(x, l)]))
    && (forall l :: 0 <= l < MAX_HEIGHT - 1 ==> s.linked[l + 1] <= s.linked[l])
    && (forall l :: s.maxHeight <= l < MAX_HEIGHT ==> s.linked[l] == {})
  }

  /** The last node of level `l` that stands before `key`. */
  ghost predicate IsPredecessor(s: Links, l: nat, x: NodeId, key: real)
    requires WellTyped(s) && l < MAX_HEIGHT
  {
    && (x == HEAD || x in s.linked[l])
    && Before(s, x, key)
    && forall z :: z in s.linked[l] && Before(s, x, s.keys[z]) ==> key <= s.keys[z]
  }

  // ----- The writer's steps -----

  /** The writer is between inserts, or is linking node `x` at `level`; `set` tells whether the
      node's own link of that level has been stored already. */
  datatype Writer =
    | Idle
    | Inserting(x: NodeId, height: nat, level: nat, set_: bool, prev: seq<NodeId>)

  ghost predicate WriterInvariant(s: Links, w: Writer) {
    && WellLinked(s)
    && (w.Inserting? ==>
          && w.x in s.keys && w.level <= w.height <= s.maxHeight
          && |w.prev| == MAX_HEIGHT
          && (forall l :: 0 <= l < w.level ==> w.x in s.linked[l])
          && (forall l :: w.level <= l < MAX_HEIGHT ==> w.x !in s.linked[l])
          && (forall l :: w.level <= l < w.height ==> IsPredecessor(s, l, w.prev[l], s.keys[w.x]))
          && (w.set_ ==> w.level < w.height && (w.x, w.level) in s.next
                         && s.next[(w.x, w.level)] == s.next[(w.prev[w.level], w.level)]))
  }

  /** A node is made; the list becomes higher first if the new node needs it. */
  ghost predicate BeginInsert(s: Links, w: Writer, t: Links, w': Writer, x: NodeId, key: real, height: nat, prev: seq<NodeId>) {
    && w == Idle && WellTyped(s)
    && x != HEAD && x !in s.keys && key !in s.keys.Values
    && 1 <= height <= MAX_HEIGHT && |prev| == MAX_HEIGHT
    && (forall l :: 0 <= l < s.maxHeight ==> IsPredecessor(s, l, prev[l], key))
    && (forall l :: s.maxHeight <= l < height ==> prev[l] == HEAD)
    && t == s.(keys := s.keys[x := key], maxHeight := if height > s.maxHeight then height else s.maxHeight)
    && w' == Inserting(x, height, 0, false, prev)
  }

  ghost predicate StoreOwnLink(s: Links, w: Writer, t: Links, w': Writer) {
    && w.Inserting? && !w.set_ && w.level < w.height && w.level < |w.prev| && (w.prev[w.level], w.level) in s.next
    && t == s.(next := s.next[(w.x, w.level) := s.next[(w.prev[w.level], w.level)]])
    && w' == w.(set_ := true)
  }

  ghost predicate Publish(s: Links, w: Writer, t: Links, w': Writer) {
    && w.Inserting? && w.set_ && w.level < w.height && w.level < |w.prev| && w.level < |s.linked|
    && t == s.(next := s.next[(w.prev[w.level], w.level) := Some(w.x)],
               linked := s.linked[w.level := s.linked[w.level] + {w.x}])
    && w' == w.(set_ := false, level := w.level + 1)
  }

  ghost predicate EndInsert(s: Links, w: Writer, t: Links, w': Writer) {
    w.Inserting? && w.level == w.height && t == s && w' == Idle
  }

  lemma BeginInsertKeeps(s: Links, w: Writer, t: Links, w': Writer, x: NodeId, key: real, height: nat, prev: seq<NodeId>)
    requires WriterInvariant(s, w) && BeginInsert(s, w, t, w', x, key, height, prev)
    ensures WriterInvariant(t, w')
  {
    assert forall y :: y in s.keys ==> s.keys[y] in s.keys.Values;
    forall l, y | 0 <= l < MAX_HEIGHT && (y == HEAD || y in t.linked[l]) ensures IsSuccessor(t, l, y, t.next[(y, l)]) {
      assert IsSuccessor(s, l, y, s.next[(y, l)]);
    }
    forall l | 0 <= l < height ensures IsPredecessor(t, l, prev[l], key) {
      if l < s.maxHeight {
        assert IsPredecessor(s, l, prev[l], key);
      }
    }
  }

  lemma StoreOwnLinkKeeps(s: Links, w: Writer, t: Links, w': Writer)
    requires WriterInvariant(s, w) && StoreOwnLink(s, w, t, w')
    ensures WriterInvariant(t, w')
  {
    forall l, y | 0 <= l < MAX_HEIGHT && (y == HEAD || y in t.linked[l]) ensures IsSuccessor(t, l, y, t.next[(y, l)]) {
      assert IsSuccessor(s, l, y, s.next[(y, l)]);
    }
    forall l | w.level <= l < w.height ensures IsPredecessor(t, l, w.prev[l], t.keys[w.x]) {
      assert IsPredecessor(s, l, w.prev[l], s.keys[w.x]);
    }
  }

  lemma PublishKeepsLevel(s: Links, w: Writer, t: Links, w': Writer, y: NodeId)
    requires WriterInvariant(s, w) && Publish(s, w, t, w') && WellTyped(t)
    requires y == HEAD || y in t.linked[w.level]
    ensures IsSuccessor(t, w.level, y, t.next[(y, w.level)])
  {
    var l, p := w.level, w.prev[w.level];
    assert IsPredecessor(s, l, p, s.keys[w.x]) && IsSuccessor(s, l, p, s.next[(p, l)]);
    assert y != w.x ==> IsSuccessor(s, l, y, s.next[(y, l)]);
    assert t.linked[l] == s.linked[l] + {w.x};
    hide WriterInvariant, WellLinked;
    if y == w.x {
      assert t.next[(y, l)] == s.next[(p, l)];
    } else if y == p {
      assert t.next[(y, l)] == Some(w.x);
    } else {
      assert t.next[(y, l)] == s.next[(y, l)];
    }
  }

  lemma PublishKeepsTypes(s: Links, w: Writer, t: Links, w': Writer)
    requires WriterInvariant(s, w) && Publish(s, w, t, w')
    ensures WellTyped(t)
    ensures forall l :: 0 <= l < MAX_HEIGHT ==> t.linked[l] == s.linked[l] + (if l == w.level then {w.x} else {})
    ensures forall l, y :: 0 <= l < MAX_HEIGHT && l != w.level && (y == HEAD || y in s.linked[l]) ==> t.next[(y, l)] == s.next[(y, l)]
  {
  }

  lemma PublishKeepsLinks(s: Links, w: Writer, t: Links, w': Writer)
    requires WriterInvariant(s, w) && Publish(s, w, t, w')
    ensures WellLinked(t)
  {
    PublishKeepsTypes(s, w, t, w');
    forall l, y | 0 <= l < MAX_HEIGHT && (y == HEAD || y in t.linked[l]) ensures IsSuccessor(t, l, y, t.next[(y, l)]) {
      if l == w.level {
        PublishKeepsLevel(s, w, t, w', y);
      } else {
        assert IsSuccessor(s, l, y, s.next[(y, l)]);
      }
    }
    forall l | 0 <= l < MAX_HEIGHT - 1 ensures t.linked[l + 1] <= t.linked[l] {
      assert s.linked[l + 1] <= s.linked[l];
      assert l + 1 == w.level ==> w.x in s.linked[l];
    }
  }

  lemma PublishKeeps(s: Links, w: Writer, t: Links, w': Writer)
    requires WriterInvariant(s, w) && Publish(s, w, t, w')
    ensures WriterInvariant(t, w')
  {
    PublishKeepsLinks(s, w, t, w');
    forall l | w.level < l < w.height ensures IsPredecessor(t, l, w.prev[l], t.keys[w.x]) {
      assert IsPredecessor(s, l, w.prev[l], s.keys[w.x]);
    }
  }

  // ----- A reader's steps -----

  /** A reader is looking for `target` from node `x` of `level`, or has come to rest on a node, with
      `None` for the end of the list. */
  datatype Reader =
    | Seeking(target: real, x: NodeId, level: nat)
    | At(node: Option<NodeId>)

  ghost predicate ReaderInvariant(s: Links, r: Reader) {
    match r
    case Seeking(target, x, level) => level < MAX_HEIGHT && |s.linked| == MAX_HEIGHT
                                      && (x == HEAD || x in s.linked[level]) && IsNode(s, x) && Before(s, x, target)
    case At(node) => node.Some? ==> |s.linked| > 0 && node.value in s.linked[0]
  }

  ghost predicate BeginSeek(s: Links, r: Reader, r': Reader, target: real) {
    r.At? && s.maxHeight >= 1 && r' == Seeking(target, HEAD, s.maxHeight - 1)
  }

  predicate KeyIsAfterNode(s: Links, key: real, n: Option<NodeId>)
    requires n.Some? ==> n.value in s.keys
  {
    n.Some? && s.keys[n.value] < key
  }

  /** One pointer load of the search, and what the reader does about it. */
  ghost predicate SeekStep(s: Links, r: Reader, r': Reader) {
    && r.Seeking? && (r.x, r.level) in s.next
    && var n := s.next[(r.x, r.level)];
       && (n.Some? ==> n.value in s.keys)
       && r' == if KeyIsAfterNode(s, r.target, n) then r.(x := n.value)
                else if r.level == 0 then At(n)
                else r.(level := r.level - 1)
  }

  /** `Iterator::Next`: one load at level 0. */
  ghost predicate Advance(s: Links, r: Reader, r': Reader) {
    r.At? && r.node.Some? && (r.node.value, 0) in s.next && r' == At(s.next[(r.node.value, 0)])
  }

  lemma ReaderNeverStuck(s: Links, r: Reader)
    requires WellLinked(s) && ReaderInvariant(s, r)
    ensures r.Seeking? ==> exists r' :: SeekStep(s, r, r') && ReaderInvariant(s, r')
    ensures r.At? && r.node.Some? ==> exists r' :: Advance(s, r, r') && ReaderInvariant(s, r')
  {
    if r.Seeking? {
      var n := s.next[(r.x, r.level)];
      assert IsSuccessor(s, r.level, r.x, n);
      var r' := if KeyIsAfterNode(s, r.target, n) then r.(x := n.value)
                else if r.level == 0 then At(n)
                else r.(level := r.level - 1);
      assert r.level > 0 ==> s.linked[r.level] <= s.linked[r.level - 1];
      assert SeekStep(s, r, r') && ReaderInvariant(s, r');
    } else if r.node.Some? {
      var r' := At(s.next[(r.node.value, 0)]);
      assert IsSuccessor(s, 0, r.node.value, r'.node);
      assert Advance(s, r, r');
    }
  }

  lemma ReaderStepKeeps(s: Links, r: Reader, r': Reader)
    requires WellLinked(s) && ReaderInvariant(s, r)
    requires SeekStep(s, r, r') || Advance(s, r, r') || exists target :: BeginSeek(s, r, r', target)
    ensures ReaderInvariant(s, r')
  {
    if r.Seeking? {
      assert IsSuccessor(s, r.level, r.x, s.next[(r.x, r.level)]);
      assert r.level > 0 ==> s.linked[r.level] <= s.linked[r.level - 1];
    } else if r'.At? {
      assert IsSuccessor(s, 0, r.node.value, r'.node);
    }
  }

  /** Links only grow, so nothing a writer does upsets a reader. */
  ghost predicate Grows(s: Links, t: Links) {
    && |s.linked| == MAX_HEIGHT && |t.linked| == MAX_HEIGHT
    && (forall l :: 0 <= l < MAX_HEIGHT ==> s.linked[l] <= t.linked[l])
    && (forall x :: x in s.keys ==> x in t.keys && t.keys[x] == s.keys[x])
  }

  lemma GrowthKeepsReader(s: Links, t: Links, r: Reader)
    requires Grows(s, t) && ReaderInvariant(s, r)
    ensures ReaderInvariant(t, r)
  {
  }

  /** The node of the level-0 list with the least key not below `target`. */
  ghost predicate IsLeastAtOrAfter(s: Links, target: real, n: Option<NodeId>)
    requires WellTyped(s)
  {
    match n
    case None => forall z :: z in s.linked[0] ==> s.keys[z] < target
    case Some(y) => y in s.linked[0] && s.keys[y] >= target
                    && forall z :: z in s.linked[0] && s.keys[z] >= target ==> s.keys[y] <= s.keys[z]
  }

  /** The search ends on the least key at or after the target of the list as it is at the last load. */
  lemma SeekFindsLeast(s: Links, r: Reader, r': Reader)
    requires WellLinked(s) && ReaderInvariant(s, r) && SeekStep(s, r, r') && r'.At?
    ensures IsLeastAtOrAfter(s, r.target, r'.node)
  {
    assert IsSuccessor(s, 0, r.x, s.next[(r.x, 0)]);
  }

  // ----- Interleaved runs -----

  datatype System = System(links: Links, writer: Writer, reader: Reader)

  ghost predicate WriterStep(s: System, t: System) {
    && t.reader == s.reader
    && (|| StoreOwnLink(s.links, s.writer, t.links, t.writer)
        || Publish(s.links, s.writer, t.links, t.writer)
        || EndInsert(s.links, s.writer, t.links, t.writer)
        || exists x, key, height, prev :: BeginInsert(s.links, s.writer, t.links, t.writer, x, key, height, prev))
  }

  ghost predicate ReaderStep(s: System, t: System) {
    && t.links == s.links && t.writer == s.writer
    && (SeekStep(s.links, s.reader, t.reader) || Advance(s.links, s.reader, t.reader)
        || exists target :: BeginSeek(s.links, s.reader, t.reader, target))
  }

  ghost predicate Init(s: System) {
    && s.links.keys == map[] && s.links.maxHeight == 1
    && s.links.linked == seq(MAX_HEIGHT, _ => {})
    && (forall l :: 0 <= l < MAX_HEIGHT ==> (HEAD, l) in s.links.next && s.links.next[(HEAD, l)] == None)
    && s.writer == Idle && s.reader == At(None)
  }

  ghost predicate Invariant(s: System) {
    WriterInvariant(s.links, s.writer) && ReaderInvariant(s.links, s.reader)
  }

  ghost predicate IsRun(trace: seq<System>) {
    && trace != [] && Init(trace[0])
    && forall i :: 0 <= i < |trace| - 1 ==> WriterStep(trace[i], trace[i + 1]) || ReaderStep(trace[i], trace[i + 1])
  }

  lemma WriterStepKeeps(s: System, t: System)
    requires Invariant(s) && WriterStep(s, t)
    ensures Invariant(t) && Grows(s.links, t.links)
  {
    if StoreOwnLink(s.links, s.writer, t.links, t.writer) {
      StoreOwnLinkKeeps(s.links, s.writer, t.links, t.writer);
    } else if Publish(s.links, s.writer, t.links, t.writer) {
      PublishKeeps(s.links, s.writer, t.links, t.writer);
    } else if !EndInsert(s.links, s.writer, t.links, t.writer) {
      var x, key, height, prev :| BeginInsert(s.links, s.writer, t.links, t.writer, x, key, height, prev);
      BeginInsertKeeps(s.links, s.writer, t.links, t.writer, x, key, height, prev);
    }
    GrowthKeepsReader(s.links, t.links, s.reader);
  }

  lemma StepKeeps(s: System, t: System)
    requires Invariant(s) && (WriterStep(s, t) || ReaderStep(s, t))
    ensures Invariant(t) && Grows(s.links, t.links)
  {
    if WriterStep(s, t) {
      WriterStepKeeps(s, t);
    } else {
      ReaderStepKeeps(s.links, s.reader, t.reader);
    }
  }

  lemma {:induction false} RunKeepsInvariant(trace: seq<System>, i: nat)
    requires IsRun(trace) && i < |trace|
    ensures Invariant(trace[i])
  {
    if i > 0 {
      RunKeepsInvariant(trace, i - 1);
      StepKeeps(trace[i - 1], trace[i]);
    }
  }

  /** In every run every level is at every moment a key-ordered sublist of the level below. */
  lemma EveryStateIsWellLinked(trace: seq<System>, i: nat)
    requires IsRun(trace) && i < |trace|
    ensures WellLinked(trace[i].links)
  {
    RunKeepsInvariant(trace, i);
  }

  lemma StepGrows(trace: seq<System>, i: nat)
    requires IsRun(trace) && i + 1 < |trace|
    ensures Grows(trace[i].links, trace[i + 1].links)
  {
    RunKeepsInvariant(trace, i);
    StepKeeps(trace[i], trace[i + 1]);
  }

  lemma {:induction false} RunGrows(trace: seq<System>, i: nat, j: nat)
    requires IsRun(trace) && i < j < |trace|
    ensures Grows(trace[i].links, trace[j].links)
    decreases j
  {
    StepGrows(trace, j - 1);
    if i < j - 1 {
      RunGrows(trace, i, j - 1);
      GrowsTransitive(trace[i].links, trace[j - 1].links, trace[j].links);
    }
  }

  lemma GrowsTransitive(s: Links, t: Links, u: Links)
    requires Grows(s, t) && Grows(t, u)
    ensures Grows(s, u)
  {
  }

  /** The reader begins a search in state `i` and ends it in state `j`. */
  ghost predicate Searches(trace: seq<System>, i: nat, j: nat, target: real) {
    && i + 1 < j < |trace|
    && BeginSeek(trace[i].links, trace[i].reader, trace[i + 1].reader, target)
    && (forall k :: i < k < j ==> trace[k].reader.Seeking? && trace[k].reader.target == target)
    && trace[j].reader.At?
  }

  /** A search running beside any number of inserts ends on the least key at or after its target of
      the list as it stood at the last load, and so never misses a key that was there when it began. */
  lemma SearchNeverMisses(trace: seq<System>, i: nat, j: nat, target: real)
    requires IsRun(trace) && Searches(trace, i, j, target)
    ensures WellTyped(trace[j - 1].links) && IsLeastAtOrAfter(trace[j - 1].links, target, trace[j].reader.node)
    ensures forall z :: z in Nodes(trace[i].links) && KeyOf(trace[i].links, z) >= target ==>
              trace[j].reader.node.Some? && KeyOf(trace[j].links, trace[j].reader.node.value) <= KeyOf(trace[i].links, z)
  {
    RunKeepsInvariant(trace, i);
    RunKeepsInvariant(trace, j - 1);
    RunGrows(trace, i, j - 1);
    LastLoad(trace[j - 1], trace[j]);
  }

  lemma LastLoad(s: System, t: System)
    requires Invariant(s) && (WriterStep(s, t) || ReaderStep(s, t))
    requires s.reader.Seeking? && t.reader.At?
    ensures t.links == s.links && IsLeastAtOrAfter(s.links, s.reader.target, t.reader.node)
  {
    assert SeekStep(s.links, s.reader, t.reader);
    SeekFindsLeast(s.links, s.reader, t.reader);
  }

  // ----- Scans -----

  /** From state `i` to state `j` the reader does nothing but advance. */
  ghost predicate Scans(trace: seq<System>, i: nat, j: nat) {
    && i <= j < |trace|
    && forall k :: i <= k <= j ==> trace[k].reader.At?
  }

  ghost predicate Visited(trace: seq<System>, i: nat, j: nat, z: NodeId) {
    exists k :: 0 <= i <= k <= j < |trace| && trace[k].reader == At(Some(z))
  }

  /** A scan meets, in key order, every node that was in the list when it started: at any moment such
      a node is still ahead of the reader or has been visited. */
  lemma {:induction false} ScanNeverSkips(trace: seq<System>, i: nat, j: nat, z: NodeId)
    requires IsRun(trace) && Scans(trace, i, j)
    requires z in Nodes(trace[i].links) && trace[i].reader.node.Some?
    requires KeyOf(trace[i].links, trace[i].reader.node.value) <= KeyOf(trace[i].links, z)
    ensures Visited(trace, i, j, z) || StillAhead(trace[j], z)
    decreases j
  {
    if i == j {
      RunScanStart(trace, i, z);
      VisitedNow(trace, i, j, z);
    } else {
      ScanNeverSkips(trace, i, j - 1, z);
      VisitedNow(trace, i, j, z);
      if !Visited(trace, i, j - 1, z) {
        RunScanStep(trace, j, z);
      }
    }
  }

  lemma RunScanStep(trace: seq<System>, j: nat, z: NodeId)
    requires IsRun(trace) && 0 < j < |trace| && trace[j].reader.At? && StillAhead(trace[j - 1], z)
    ensures trace[j].reader == At(Some(z)) || StillAhead(trace[j], z)
  {
    var s, t := trace[j - 1], trace[j];
    RunKeepsInvariant(trace, j - 1);
    StepGrows(trace, j - 1);
    if t.reader != s.reader {
      assert Advance(s.links, s.reader, t.reader);
      assert IsSuccessor(s.links, 0, s.reader.node.value, t.reader.node);
    }
  }

  lemma RunScanStart(trace: seq<System>, i: nat, z: NodeId)
    requires IsRun(trace) && i < |trace| && trace[i].reader.At? && trace[i].reader.node.Some?
    requires z in Nodes(trace[i].links) && KeyOf(trace[i].links, trace[i].reader.node.value) <= KeyOf(trace[i].links, z)
    ensures trace[i].reader == At(Some(z)) || StillAhead(trace[i], z)
  {
    RunKeepsInvariant(trace, i);
    ScanStart(trace[i], z);
  }

  lemma VisitedNow(trace: seq<System>, i: nat, j: nat, z: NodeId)
    requires i <= j < |trace|
    ensures trace[j].reader == At(Some(z)) ==> Visited(trace, i, j, z)
    ensures i < j && Visited(trace, i, j - 1, z) ==> Visited(trace, i, j, z)
  {
    if trace[j].reader == At(Some(z)) {
      assert 0 <= i <= j <= j < |trace|;
    }
    if i < j && Visited(trace, i, j - 1, z) {
      var k :| 0 <= i <= k <= j - 1 < |trace| && trace[k].reader == At(Some(z));
      assert 0 <= i <= k <= j < |trace|;
    }
  }

  /** The reader stands on a node in front of `z`, which is in the list. */
  ghost predicate StillAhead(s: System, z: NodeId) {
    && s.reader.At? && s.reader.node.Some?
    && z in Nodes(s.links)
    && KeyOf(s.links, s.reader.node.value) < KeyOf(s.links, z)
  }

  lemma ScanStart(s: System, z: NodeId)
    requires Invariant(s) && s.reader.At? && s.reader.node.Some? && z in Nodes(s.links)
    requires KeyOf(s.links, s.reader.node.value) <= KeyOf(s.links, z)
    ensures s.reader == At(Some(z)) || StillAhead(s, z)
  {
  }

  /** And it meets them in strictly increasing key order. */
  lemma AdvanceIncreases(s: System, t: System)
    requires Invariant(s) && ReaderStep(s, t) && Advance(s.links, s.reader, t.reader)
    ensures t.reader.node.Some? ==> s.links.keys[s.reader.node.value] < s.links.keys[t.reader.node.value]
  {
    assert IsSuccessor(s.links, 0, s.reader.node.value, t.reader.node);
  }

  // ----- The list object, with whole operations -----

  /** Nodes standing behind `x`. */
  ghost function Ahead(s: Links, x: NodeId): set<NodeId>
    requires IsNode(s, x)
  {
    set z | z in s.keys && Before(s, x, s.keys[z])
  }

  lemma MovingShrinksAhead(s: Links, x: NodeId, y: NodeId)
    requires WellTyped(s) && IsNode(s, x) && y in s.keys && Before(s, x, s.keys[y])
    ensures Ahead(s, y) < Ahead(s, x)
  {
    assert y in Ahead(s, x) && y !in Ahead(s, y);
  }

  class SkipList {
    /** All nodes and links. */
    var list: Links

    /** Between inserts every node is published. */
    ghost predicate Valid()
      reads this
    {
      WellLinked(list) && list.linked[0] == list.keys.Keys
    }

    constructor ()
      ensures Valid() && list.keys == map[]
    {
      list := Links(map[], map l | 0 <= l < MAX_HEIGHT :: (HEAD, l) := None, 1, seq(MAX_HEIGHT, _ => {}));
    }

    /** The earliest node at or after `key`, and on the way the last node before it at every level. */
    method FindGreaterOrEqual(key: real) returns (node: Option<NodeId>, prev: seq<NodeId>)
      requires Valid()
      ensures IsLeastAtOrAfter(list, key, node)
      ensures |prev| == MAX_HEIGHT
      ensures forall l :: 0 <= l < list.maxHeight ==> IsPredecessor(list, l, prev[l], key)
    {
      prev := seq(MAX_HEIGHT, _ => HEAD);
      var x, level := HEAD, list.maxHeight - 1;
      while true
        invariant 0 <= level < list.maxHeight && |prev| == MAX_HEIGHT
        invariant (x == HEAD || x in list.linked[level]) && IsNode(list, x) && Before(list, x, key)
        invariant forall l :: level < l < list.maxHeight ==> IsPredecessor(list, l, prev[l], key)
        decreases level, Ahead(list, x)
      {
        var n := list.next[(x, level)];
        assert IsSuccessor(list, level, x, n);
        if KeyIsAfterNode(list, key, n) {
          MovingShrinksAhead(list, x, n.value);
          x := n.value;
        } else {
          prev := prev[level := x];
          assert IsPredecessor(list, level, x, key);
          if level == 0 {
            return n, prev;
          }
          assert list.linked[level - 1 + 1] <= list.linked[level - 1];
          level := level - 1;
        }
      }
    }

    /** The latest node before `key`, or the head. */
    method FindLessThan(key: real) returns (x: NodeId)
      requires Valid()
      ensures IsPredecessor(list, 0, x, key)
    {
      x := HEAD;
      var level := list.maxHeight - 1;
      while true
        invariant 0 <= level < list.maxHeight
        invariant (x == HEAD || x in list.linked[level]) && IsNode(list, x) && Before(list, x, key)
        decreases level, Ahead(list, x)
      {
        var n := list.next[(x, level)];
        assert IsSuccessor(list, level, x, n);
        if n.None? || list.keys[n.value] >= key {
          if level == 0 {
            return;
          }
          assert list.linked[level - 1 + 1] <= list.linked[level - 1];
          level := level - 1;
        } else {
          MovingShrinksAhead(list, x, n.value);
          x := n.value;
        }
      }
    }

    /** The last node, or the head of an empty list. */
    method FindLast() returns (x: NodeId)
      requires Valid()
      ensures x == HEAD || x in list.keys
      ensures forall z :: z in list.keys ==> !(IsNode(list, x) && Before(list, x, list.keys[z]))
    {
      x := HEAD;
      var level := list.maxHeight - 1;
      while true
        invariant 0 <= level < list.maxHeight
        invariant (x == HEAD || x in list.linked[level]) && IsNode(list, x)
        decreases level, Ahead(list, x)
      {
        var n := list.next[(x, level)];
        assert IsSuccessor(list, level, x, n);
        if n.None? {
          if level == 0 {
            return;
          }
          assert list.linked[level - 1 + 1] <= list.linked[level - 1];
          level := level - 1;
        } else {
          MovingShrinksAhead(list, x, n.value);
          x := n.value;
        }
      }
    }

    method Contains(key: real) returns (b: bool)
      requires Valid()
      ensures b <==> key in list.keys.Values
    {
      var node, _ := FindGreaterOrEqual(key);
      b := node.Some? && list.keys[node.value] == key;
      if key in list.keys.Values {
        var z :| z in list.keys && list.keys[z] == key;
        assert z in list.linked[0];
      }
    }

    /** Links the new node at one level: first its own link, then the link to it. */
    method LinkAtLevel(x: NodeId, height: nat, level: nat, prev: seq<NodeId>)
      requires level < height && WriterInvariant(list, Inserting(x, height, level, false, prev))
      modifies this
      ensures WriterInvariant(list, Inserting(x, height, level + 1, false, prev))
      ensures list.keys == old(list.keys)
      ensures list.linked == old(list.linked)[level := old(list.linked)[level] + {x}]
    {
      ghost var s, w := list, Inserting(x, height, level, false, prev);
      assert IsPredecessor(s, level, prev[level], s.keys[x]);
      list := list.(next := list.next[(x, level) := list.next[(prev[level], level)]]);
      ghost var t := list;
      StoreOwnLinkKeeps(s, w, t, w.(set_ := true));
      list := list.(next := list.next[(prev[level], level) := Some(x)],
                    linked := list.linked[level := list.linked[level] + {x}]);
      PublishKeeps(t, w.(set_ := true), list, w.(level := level + 1));
    }

    /** Makes the new node and, if it is the highest yet, raises the list. */
    method Prepare(x: NodeId, key: real, height: nat) returns (prev: seq<NodeId>)
      requires Valid() && x != HEAD && x !in list.keys && key !in list.keys.Values
      requires 1 <= height <= MAX_HEIGHT
      modifies this
      ensures WriterInvariant(list, Inserting(x, height, 0, false, prev))
      ensures list.keys == old(list.keys)[x := key] && list.linked == old(list.linked)
    {
      var node, found := FindGreaterOrEqual(key);
      var oldHeight := list.maxHeight;
      prev := seq(MAX_HEIGHT, l requires 0 <= l < |found| => if l < oldHeight then found[l] else HEAD);
      ghost var s := list;
      list := list.(keys := list.keys[x := key], maxHeight := if height > oldHeight then height else oldHeight);
      BeginInsertKeeps(s, Idle, list, Inserting(x, height, 0, false, prev), x, key, height, prev);
    }

    /** Links a new node of the given height into the list, level by level from the bottom. */
    method Insert(x: NodeId, key: real, height: nat)
      requires Valid() && x != HEAD && x !in list.keys && key !in list.keys.Values
      requires 1 <= height <= MAX_HEIGHT
      modifies this
      ensures Valid() && list.keys == old(list.keys)[x := key]
      ensures forall l :: 0 <= l < MAX_HEIGHT ==> list.linked[l] == if l < height then old(list.linked[l]) + {x} else old(list.linked[l])
    {
      var prev := Prepare(x, key, height);
      LinkAtLevel(x, height, 0, prev);
      for level := 1 to height
        invariant WriterInvariant(list, Inserting(x, height, level, false, prev))
        invariant list.keys == old(list.keys)[x := key]
        invariant list.linked[0] == old(list.keys).Keys + {x}
        invariant forall l :: 0 <= l < MAX_HEIGHT ==> list.linked[l] == if l < level then old(list.linked[l]) + {x} else old(list.linked[l])
      {
        LinkAtLevel(x, height, level, prev);
      }
    }
  }
}
