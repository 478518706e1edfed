/** The database object: its methods take the steps of the state machine in `Engine`. */
module DB {
  import opened Entries
  import opened Versions
  import opened VersionBuilder
  import opened CompactionInputs
  import opened Compactions
  import opened LevelInvariant
  import opened CleanCuts
  import opened Engine
  import PlainMaps

  // ----- Edits -----

  function DeletionsOf(level: nat, files: seq<TableFile>): (r: seq<(nat, nat)>)
    ensures |r| == |files| && forall i :: 0 <= i < |files| ==> r[i] == (level, files[i].number)
  {
    seq(|files|, i requires 0 <= i < |files| => (level, files[i].number))
  }

  function AdditionsOf(level: nat, files: seq<TableFile>): (r: seq<(nat, TableFile)>)
    ensures |r| == |files| && forall i :: 0 <= i < |files| ==> r[i] == (level, files[i])
  {
    seq(|files|, i requires 0 <= i < |files| => (level, files[i]))
  }

  /** The edit of a compaction: inputs deleted, outputs added to the next level. */
  function CompactionEdit(c: Inputs, outs: seq<TableFile>): VersionEdit {
    VersionEdit(None, None, None, DeletionsOf(c.level, c.in0) + DeletionsOf(c.level + 1, c.in1),
                AdditionsOf(c.level + 1, outs))
  }

  lemma CompactionEditLevels(c: Inputs, outs: seq<TableFile>)
    ensures forall l :: DeletedAt(CompactionEdit(c, outs), l) ==
              if l == c.level then Numbers(ToSet(c.in0)) else if l == c.level + 1 then Numbers(ToSet(c.in1)) else {}
    ensures forall l :: NewAt(CompactionEdit(c, outs), l) == if l == c.level + 1 then ToSet(outs) else {}
  {
    var edit := CompactionEdit(c, outs);
    var d0, d1 := DeletionsOf(c.level, c.in0), DeletionsOf(c.level + 1, c.in1);
    forall i | 0 <= i < |c.in0| ensures (c.level, c.in0[i].number) in edit.deletedFiles {
      assert d0[i] in d0;
    }
    forall i | 0 <= i < |c.in1| ensures (c.level + 1, c.in1[i].number) in edit.deletedFiles {
      assert d1[i] in d1;
    }
    forall p | p in edit.deletedFiles
      ensures (p.0 == c.level && p.1 in Numbers(ToSet(c.in0))) || (p.0 == c.level + 1 && p.1 in Numbers(ToSet(c.in1)))
    {
      if p in d0 {
        var i :| 0 <= i < |d0| && d0[i] == p;
        assert c.in0[i] in ToSet(c.in0);
      } else {
        var i :| 0 <= i < |d1| && d1[i] == p;
        assert c.in1[i] in ToSet(c.in1);
      }
    }
    forall i | 0 <= i < |outs| ensures (c.level + 1, outs[i]) in edit.newFiles {
      assert edit.newFiles[i] in edit.newFiles;
    }
    forall p | p in edit.newFiles ensures p.0 == c.level + 1 && p.1 in outs {
      var i :| 0 <= i < |edit.newFiles| && edit.newFiles[i] == p;
    }
  }

  /** Installing an edit by a fresh builder. */
  ghost predicate Installs(v: Version, edit: VersionEdit, w: Version) {
    forall l :: 0 <= l < NUM_LEVELS ==>
      && Ordered(w[l])
      && forall f :: f in w[l] <==>
           (f in v[l] || f in NewAt(edit, l)) && f.number !in DeletedAt(edit, l) - Numbers(NewAt(edit, l))
  }

  lemma CompactionEditReplaces(v: Version, c: Inputs, outs: seq<TableFile>, w: Version)
    requires GoodInputs(v, c) && Identified(AllFiles(v))
    requires forall l, f :: 0 <= l < NUM_LEVELS && f in v[l] && f in outs ==> IsInput(c, l, f)
    requires forall f, g :: f in AllFiles(v) && g in outs && f.number == g.number ==> f == g
    requires Installs(v, CompactionEdit(c, outs), w)
    ensures Replaced(v, w, c, ToSet(outs))
  {
    CompactionEditLevels(c, outs);
    forall l, f | 0 <= l < NUM_LEVELS
      ensures f in w[l] <==> (f in v[l] && !IsInput(c, l, f)) || (l == c.level + 1 && f in ToSet(outs))
    {
      EditAtLevel(v, c, outs, l, f);
    }
  }

  lemma EditAtLevel(v: Version, c: Inputs, outs: seq<TableFile>, l: nat, f: TableFile)
    requires GoodInputs(v, c) && Identified(AllFiles(v)) && l < NUM_LEVELS
    requires forall l, f :: 0 <= l < NUM_LEVELS && f in v[l] && f in outs ==> IsInput(c, l, f)
    requires forall f, g :: f in AllFiles(v) && g in outs && f.number == g.number ==> f == g
    ensures var edit := CompactionEdit(c, outs);
            (f in v[l] || f in NewAt(edit, l)) && f.number !in DeletedAt(edit, l) - Numbers(NewAt(edit, l))
            <==> (f in v[l] && !IsInput(c, l, f)) || (l == c.level + 1 && f in ToSet(outs))
  {
    CompactionEditLevels(c, outs);
    var inputs := if l == c.level then ToSet(c.in0) else if l == c.level + 1 then ToSet(c.in1) else {};
    assert f in inputs <==> IsInput(c, l, f);
    assert f in inputs ==> f.number in Numbers(inputs);
    if f in v[l] && f.number in Numbers(inputs) {
      var g :| g in inputs && g.number == f.number;
      assert g in v[l] && g in AllFiles(v) && f in AllFiles(v);
    }
    assert f in outs ==> f.number in Numbers(ToSet(outs));
    if f in v[l] && l == c.level + 1 && f.number in Numbers(ToSet(outs)) {
      var g :| g in ToSet(outs) && g.number == f.number;
      assert f in AllFiles(v);
    }
  }

  // ----- Merging sorted runs -----

  method MergeRuns(a: seq<Entry>, b: seq<Entry>) returns (r: seq<Entry>)
    requires Sorted(a) && Sorted(b) && NoSharedKey(a, b)
    ensures Sorted(r) && ToSet(r) == ToSet(a) + ToSet(b)
  {
    r := [];
    var i, j := 0, 0;
    while i < |a| || j < |b|
      invariant 0 <= i <= |a| && 0 <= j <= |b|
      invariant Sorted(r) && ToSet(r) == ToSet(a[..i]) + ToSet(b[..j])
      invariant forall x, y :: 0 <= x < |r| && i <= y < |a| ==> Lt(r[x].k, a[y].k)
      invariant forall x, y :: 0 <= x < |r| && j <= y < |b| ==> Lt(r[x].k, b[y].k)
      decreases |a| - i + |b| - j
    {
      assert i < |a| && j < |b| ==> a[i] in a && b[j] in b && a[i].k != b[j].k;
      if j == |b| || (i < |a| && Compare(a[i].k, b[j].k) < 0) {
        assert forall y :: j <= y < |b| ==> Lt(a[i].k, b[y].k);
        assert a[..i + 1] == a[..i] + [a[i]];
        r := r + [a[i]];
        i := i + 1;
      } else {
        assert forall y :: i <= y < |a| ==> Lt(b[j].k, a[y].k);
        assert b[..j + 1] == b[..j] + [b[j]];
        r := r + [b[j]];
        j := j + 1;
      }
    }
    assert a[..|a|] == a && b[..|b|] == b;
  }

  method InsertEntry(run: seq<Entry>, e: Entry) returns (r: seq<Entry>)
    requires Sorted(run) && forall o :: o in run ==> o.k != e.k
    ensures Sorted(r) && ToSet(r) == ToSet(run) + {e}
  {
    r := MergeRuns(run, [e]);
  }

  ghost predicate InSequence(entries: seq<Entry>) {
    forall i, j :: 0 <= i < j < |entries| ==> entries[i].k.seqno < entries[j].k.seqno
  }

  ghost predicate AllBefore(a: set<Entry>, b: set<Entry>) {
    forall e, o :: e in a && o in b ==> e.k.seqno < o.k.seqno
  }

  /** Inserts the entries of a batch into a memtable that holds older entries only. */
  method InsertBatch(run: seq<Entry>, entries: seq<Entry>) returns (r: seq<Entry>)
    requires Sorted(run) && InSequence(entries) && AllBefore(ToSet(run), ToSet(entries))
    ensures Sorted(r) && ToSet(r) == ToSet(run) + ToSet(entries)
  {
    r := run;
    for i := 0 to |entries|
      invariant Sorted(r) && ToSet(r) == ToSet(run) + ToSet(entries[..i])
    {
      forall o | o in r ensures o.k != entries[i].k {
        assert o in ToSet(run) || o in entries[..i];
        assert entries[i] in ToSet(entries);
      }
      r := InsertEntry(r, entries[i]);
      assert entries[..i + 1] == entries[..i] + [entries[i]];
    }
    assert entries[..|entries|] == entries;
  }

  // ----- Compaction input -----

  lemma InputsShareNoKey(v: Version, c: Inputs, i: nat, j: nat)
    requires WellShaped(v) && GoodInputs(v, c) && i < j < |c.in0 + c.in1|
    ensures NoSharedKey((c.in0 + c.in1)[i].entries, (c.in0 + c.in1)[j].entries)
  {
    var f, g := (c.in0 + c.in1)[i], (c.in0 + c.in1)[j];
    if j < |c.in0| {
      assert f in v[c.level] && g in v[c.level] && f != g;
      FilesOfLevelShareNoKey(v, c.level, f, g);
    } else if i >= |c.in0| {
      assert f == c.in1[i - |c.in0|] && g == c.in1[j - |c.in0|];
      assert f in c.in1 && g in c.in1;
      FilesOfLevelShareNoKey(v, c.level + 1, f, g);
    } else {
      assert f == c.in0[i] && g == c.in1[j - |c.in0|];
      assert f in c.in0 && g in c.in1;
      NewerSharesNoKey(f, g);
    }
  }

  lemma FilesOfLevelShareNoKey(v: Version, l: nat, f: TableFile, g: TableFile)
    requires WellShaped(v) && l < NUM_LEVELS && f in v[l] && g in v[l] && f != g
    ensures NoSharedKey(f.entries, g.entries)
  {
    assert f in ToSet(v[l]) && g in ToSet(v[l]) && f in AllFiles(v) && g in AllFiles(v);
    if l > 0 {
      InKeyOrderSharesNoKey(ToSet(v[l]), f, g);
    } else if NewerFile(f, g) {
      NewerSharesNoKey(f, g);
    } else {
      NewerSharesNoKey(g, f);
    }
  }

  lemma InKeyOrderSharesNoKey(files: set<TableFile>, f: TableFile, g: TableFile)
    requires InKeyOrder(files) && f in files && g in files && f != g
    ensures NoSharedKey(f.entries, g.entries)
  {
    forall e, o | e in f.entries && o in g.entries ensures e.k != o.k {
      FileBounds(f, e);
      FileBounds(g, o);
    }
  }

  lemma NewerSharesNoKey(f: TableFile, g: TableFile)
    requires NewerFile(f, g)
    ensures NoSharedKey(f.entries, g.entries)
  {
    forall e, o | e in f.entries && o in g.entries ensures e.k != o.k {
      assert e in ToSet(f.entries) && o in ToSet(g.entries);
    }
  }

  /** All entries of the inputs in key order. */
  method MakeInput(v: Version, c: Inputs) returns (input: seq<Entry>)
    requires WellShaped(v) && GoodInputs(v, c)
    ensures Sorted(input) && ToSet(input) == InputEntries(c)
  {
    var files := c.in0 + c.in1;
    input := [];
    for n := 0 to |files|
      invariant Sorted(input) && ToSet(input) == FileSetEntries(ToSet(files[..n]))
    {
      forall e, o | e in input && o in files[n].entries ensures e.k != o.k {
        assert e in ToSet(input);
        var f :| f in files[..n] && e in f.entries;
        var i :| 0 <= i < n && files[i] == f;
        InputsShareNoKey(v, c, i, n);
      }
      assert files[..n + 1] == files[..n] + [files[n]];
      assert ToSet(files[..n + 1]) == ToSet(files[..n]) + {files[n]};
      assert FileSetEntries(ToSet(files[..n + 1])) == FileSetEntries(ToSet(files[..n])) + ToSet(files[n].entries);
      input := MergeRuns(input, files[n].entries);
    }
    assert files[..|files|] == files;
  }

  // ----- Installing edits -----

  lemma WellShapedIsListedOnce(v: Version)
    requires WellShaped(v)
    ensures ListedOnce(v)
  {
    forall l, i, j | 0 <= l < NUM_LEVELS && 0 <= i < j < |v[l]| ensures v[l][i] != v[l][j] {
      assert BySmallest(v[l][i], v[l][j]);
    }
  }

  ghost predicate FreshAdditions(v: Version, edit: VersionEdit) {
    forall l :: 0 <= l < NUM_LEVELS ==>
      && Identified(ToSet(v[l]) + NewAt(edit, l))
      && ToSet(v[l]) !! NewAt(edit, l)
  }

  method ApplyEdit(v: Version, edit: VersionEdit) returns (w: Version)
    requires WellShaped(v) && LevelsExist(edit) && FreshAdditions(v, edit)
    ensures Installs(v, edit, w)
  {
    forall l | 0 <= l < NUM_LEVELS ensures Identified(ToSet(v[l])) {
      assert ToSet(v[l]) <= AllFiles(v);
    }
    var builder := new Builder(v);
    assert forall l :: 0 <= l < NUM_LEVELS ==> ToSet(v[l]) + ToSet(builder.added[l]) + NewAt(edit, l) == ToSet(v[l]) + NewAt(edit, l);
    builder.Apply(edit);
    w := builder.SaveTo();
    forall l | 0 <= l < NUM_LEVELS
      ensures Ordered(w[l])
      ensures forall f :: f in w[l] <==>
                (f in v[l] || f in NewAt(edit, l)) && f.number !in DeletedAt(edit, l) - Numbers(NewAt(edit, l))
    {
      assert ToSet(builder.added[l]) == NewAt(edit, l);
      assert forall f :: f in builder.added[l] <==> f in ToSet(builder.added[l]);
      SaveLevelMembers(v[l], builder.added[l], builder.deleted[l]);
      SaveLevelOrdered(v[l], builder.added[l], builder.deleted[l]);
      assert !AddedTwice(v[l], ToSet(builder.added[l]), builder.deleted[l]);
    }
  }

  // ----- The database object -----

  class DBImpl {
    var mem: seq<Entry>
    var imm: Option<seq<Entry>>
    var version: Version
    var lastSequence: nat
    var nextFileNumber: nat
    var snapshots: seq<SequenceNumber>
    ghost var history: set<Entry>
    ghost var floor: nat

    ghost function Abs(): State
      reads this
    {
      State(Store(ToSet(mem), if imm.Some? then ToSet(imm.value) else {}, version),
                  lastSequence, snapshots, nextFileNumber, history, floor)
    }

    ghost predicate Valid()
      reads this
    {
      Consistent(Abs()) && Sorted(mem) && (imm.Some? ==> Sorted(imm.value))
    }

    constructor ()
      ensures Valid() && Init(Abs()) && imm == None
    {
      mem, imm, version := [], None, EmptyVersion();
      lastSequence, nextFileNumber, snapshots, history, floor := 0, 2, [], {}, 0;
      new;
      InitIsConsistent(Abs());
    }

    /** Numbers the operations of a batch and puts them into the memtable one by one. */
    method Write(ops: seq<Op>)
      requires Valid() && lastSequence + |ops| < MAX_SEQUENCE
      modifies this
      ensures Valid() && Engine.Write(old(Abs()), Abs(), ops)
      ensures forall i: nat :: PlainMaps.IsLast(ops, i) ==> Visible(history, ops[i].key, lastSequence) == PlainMaps.Left(ops[i])
      ensures forall u :: PlainMaps.Untouched(ops, u) ==> Visible(history, u, lastSequence) == Visible(old(history), u, old(lastSequence))
      ensures forall u, s: SequenceNumber :: s <= old(lastSequence) ==> Visible(history, u, s) == Visible(old(history), u, s)
    {
      hide WellShaped, Agree;
      var entries := BatchEntries(ops, lastSequence + 1);
      assert forall e :: e in ToSet(mem) ==> e in history;
      mem := InsertBatch(mem, entries);
      lastSequence := lastSequence + |ops|;
      history := history + ToSet(entries);
      WriteKeepsConsistent(old(Abs()), Abs(), ops);
      PlainMaps.WriteIsSeen(old(Abs()), Abs(), ops);
    }

    /** Part of making room for a write: the memtable becomes immutable and a new log is started. */
    method SwitchMemTable()
      requires Valid() && imm == None
      modifies this
      ensures Valid() && Switch(old(Abs()), Abs()) && imm == Some(old(mem)) && mem == []
    {
      nextFileNumber := nextFileNumber + 1;
      imm := Some(mem);
      mem := [];
      SwitchKeepsConsistent(old(Abs()), Abs());
    }

    /** Writes the immutable memtable to a file; an empty one leaves no file behind. */
    method CompactMemTable(size: nat, maxGrandparentBytes: nat)
      requires Valid() && imm.Some?
      modifies this
      ensures Valid() && imm == None
      ensures old(imm.value) == [] ==> Abs() == old(Abs()).(nextFile := nextFileNumber)
      ensures old(imm.value) != [] ==> exists level, f :: Flush(old(Abs()), Abs(), level, f)
    {
      var number := nextFileNumber;
      nextFileNumber := nextFileNumber + 1;
      if imm.value == [] {
        imm := None;
        assert Abs() == old(Abs()).(nextFile := nextFileNumber);
        return;
      }
      var f: TableFile := File(number, size, imm.value);
      WellShapedIsSearchable(version);
      var level := PickLevelForMemTableOutput(version, f.Smallest().user, f.Largest().user, maxGrandparentBytes);
      var edit := VersionEdit(None, None, None, [], [(level, f)]);
      FlushEdit(version, level, f, nextFileNumber - 1);
      var w := ApplyEdit(version, edit);
      FlushInstalls(version, w, level, f);
      version := w;
      imm := None;
      assert Flush(old(Abs()), Abs(), level, f);
      FlushKeepsConsistent(old(Abs()), Abs(), level, f);
    }

    method GetSnapshot() returns (s: SequenceNumber)
      requires Valid()
      modifies this`snapshots
      ensures Valid() && Engine.GetSnapshot(old(Abs()), Abs()) && s == lastSequence
      ensures snapshots == old(snapshots) + [lastSequence]
    {
      s := lastSequence;
      snapshots := snapshots + [s];
      SnapshotsKeepConsistent(old(Abs()), Abs());
    }

    method ReleaseSnapshot(i: nat)
      requires Valid() && i < |snapshots|
      modifies this`snapshots
      ensures Valid() && Engine.ReleaseSnapshot(old(Abs()), Abs(), i)
      ensures snapshots == old(snapshots)[..i] + old(snapshots)[i + 1..]
    {
      snapshots := snapshots[..i] + snapshots[i + 1..];
      assert Engine.ReleaseSnapshot(old(Abs()), Abs(), i);
      SnapshotsKeepConsistent(old(Abs()), Abs());
    }

    /** One compaction of a level.  It keeps everything right if it is harmless, as it always is while
        no user key spans two files; with no live snapshot it keeps that so as well. */
    method BackgroundCompaction(level: nat, pointer: Option<InternalKey>, limits: Limits)
      returns (c: Inputs, moved: bool, outputs: seq<TableFile>, ghost input: seq<Entry>)
      requires Valid() && imm == None && level + 1 < NUM_LEVELS && version[level] != []
      modifies this
      ensures GoodInputs(old(version), c) && c.level == level
      ensures exists i: nat :: IsTurnOf(old(version)[level], pointer, i) && old(version)[level][i] in c.in0
      ensures moved <==> |c.in0| == 1 && c.in1 == [] && TotalSize(c.grandparents) <= limits.grandparentOverlap
      ensures if moved then TrivialMove(old(Abs()), Abs(), c)
              else Compact(old(Abs()), Abs(), c, input, SmallestSnapshot(old(Abs())), outputs)
      ensures (if moved then NoneGoesOn(old(version), c)
               else Harmless(old(version), c, input, SmallestSnapshot(old(Abs())))) ==> Valid()
      ensures Clean(old(version)) ==> Valid()
      ensures Clean(old(version)) && old(snapshots) == [] ==> Clean(version)
    {
      WellShapedIsListedOnce(version);
      WellShapedIsSearchable(version);
      hide WellShaped, Agree, GoodInputs, Clean, NoneGoesOn, Harmless, Compact, TrivialMove, ListedOnce;
      c := PickCompaction(version, level, pointer, limits.expandedSize);
      var grandparentSize := TotalFileSize(c.grandparents);
      moved := |c.in0| == 1 && c.in1 == [] && grandparentSize <= limits.grandparentOverlap;
      input := [];
      if moved {
        outputs := c.in0;
        MoveFile(c);
      } else {
        outputs, input := DoCompactionWork(c, limits);
      }
    }

    method MoveFile(c: Inputs)
      requires Valid() && GoodInputs(version, c) && |c.in0| == 1 && c.in1 == []
      modifies this
      ensures TrivialMove(old(Abs()), Abs(), c)
      ensures NoneGoesOn(old(version), c) ==> Valid()
      ensures Clean(old(version)) ==> Valid() && Clean(version)
    {
      assert Identified(AllFiles(version));
      hide WellShaped, Agree, GoodInputs, Clean, NoneGoesOn, Identified;
      MoveEdit(version, c);
      version := ApplyEdit(version, CompactionEdit(c, c.in0));
      CompactionEditReplaces(old(version), c, c.in0, version);
      assert ToSet(c.in0) == {c.in0[0]};
      MoveInstalled(old(Abs()), Abs(), c);
    }

    method DoCompactionWork(c: Inputs, limits: Limits) returns (outputs: seq<TableFile>, ghost input: seq<Entry>)
      requires Valid() && GoodInputs(version, c)
      modifies this
      ensures Compact(old(Abs()), Abs(), c, input, SmallestSnapshot(old(Abs())), outputs)
      ensures Harmless(old(version), c, input, SmallestSnapshot(old(Abs()))) ==> Valid()
      ensures Clean(old(version)) ==> Valid()
      ensures Clean(old(version)) && old(snapshots) == [] ==> Clean(version)
    {
      hide WellShaped, Agree, GoodInputs, Clean, Harmless;
      WellShapedIsSearchable(version);
      var smallest: SequenceNumber := if snapshots == [] then lastSequence else snapshots[0];
      var merged := MakeInput(version, c);
      input := merged;
      outputs, nextFileNumber := RunJob(version, c, merged, smallest, limits, nextFileNumber);
      floor := if smallest > floor then smallest else floor;
      FreshOutputs(version, c, outputs, old(nextFileNumber));
      version := ApplyEdit(version, CompactionEdit(c, outputs));
      CompactionInstalled(old(Abs()), Abs(), c, input, outputs);
    }

    /** A read at a live snapshot, or of the latest data when `snapshot` is `None`. */
    method Get(u: UserKey, snapshot: Option<SequenceNumber>) returns (r: Option<string>)
      requires Valid() && (snapshot.Some? ==> snapshot.value in snapshots)
      ensures r == Visible(history, u, if snapshot.Some? then snapshot.value else lastSequence)
    {
      var s: SequenceNumber := if snapshot.Some? then snapshot.value else lastSequence;
      WellShapedIsSearchable(version);
      var l := Find(mem, u, s);
      ghost var a := l;
      ghost var b := SomeReport(Abs().store.imm, u, s);
      ghost var c := SomeReport(VersionEntries(version), u, s);
      if l == Missing && imm.Some? {
        l := Find(imm.value, u, s);
        b := l;
      }
      if l == Missing {
        b := Missing;
        l := Versions.Get(version, u, s);
        c := l;
      }
      assert Reports(Abs().store.mem, u, s, a) && Reports(Abs().store.imm, u, s, b);
      ReadIsRight(Abs(), u, s, l);
      r := Answer(l);
    }
  }

  method RunJob(v: Version, c: Inputs, input: seq<Entry>, snapshot: SequenceNumber, limits: Limits, nextFile: nat)
    returns (outputs: seq<TableFile>, next: nat)
    requires GoodInputs(v, c) && snapshot < MAX_SEQUENCE && Sorted(input)
    requires forall l :: 1 <= l < NUM_LEVELS ==> SortedLevel(v[l])
    ensures Concat(outputs) == Kept(v, c.level, input, snapshot, |input|)
    ensures next == nextFile + |outputs| && forall i :: 0 <= i < |outputs| ==> outputs[i].number == nextFile + i
  {
    var job := new CompactionJob(v, c, snapshot, limits.outputSize, limits.grandparentOverlap, limits.sizeOf, nextFile);
    job.Run(input);
    outputs, next := job.outputs, job.nextFileNumber;
  }

  lemma CutsCleanWithoutSnapshot(s: State, c: Inputs, input: seq<Entry>, outs: seq<TableFile>)
    requires Consistent(s) && GoodInputs(s.store.version, c) && s.snapshots == []
    requires Sorted(input) && ToSet(input) == InputEntries(c)
    requires Concat(outs) == Kept(s.store.version, c.level, input, s.lastSequence, |input|)
    ensures Disjoint(ToSet(outs))
  {
    InputsWithinVersion(s.store.version, c);
    assert forall e :: e in input ==> e in ToSet(input) && e in s.history;
    NoSnapshotMeansCleanCut(s.store.version, c.level, input, s.lastSequence, outs);
    CleanIsDisjoint(outs);
  }

  /** A compaction of a version without split keys is harmless; without snapshots it splits none. */
  lemma CleanCompaction(s: State, t: State, c: Inputs, input: seq<Entry>, outs: seq<TableFile>)
    requires Consistent(s) && Compact(s, t, c, input, SmallestSnapshot(s), outs) && Clean(s.store.version)
    ensures Harmless(s.store.version, c, input, SmallestSnapshot(s))
    ensures s.snapshots == [] ==> Clean(t.store.version)
  {
    var v, w := s.store.version, t.store.version;
    assert WellShaped(v);
    VersionIsDistinct(s);
    if s.snapshots == [] {
      CutsCleanWithoutSnapshot(s, c, input, outs);
    }
    hide WellShaped, Agree, GoodInputs, Replaced, Kept, Concat, Harmless, Clean, NoneGoesOn;
    CleanMeansNoneGoesOn(v, c);
    NoneGoesOnIsHarmless(v, c, input, SmallestSnapshot(s));
    OutputsAreDrawn(v, c, input, SmallestSnapshot(s), outs);
    if s.snapshots == [] {
      CleanCutKeepsClean(v, w, c, ToSet(outs));
    }
  }

  lemma CompactionInstalled(s: State, t: State, c: Inputs, input: seq<Entry>, outs: seq<TableFile>)
    requires Consistent(s) && GoodInputs(s.store.version, c)
    requires Sorted(input) && ToSet(input) == InputEntries(c)
    requires Concat(outs) == Kept(s.store.version, c.level, input, SmallestSnapshot(s), |input|)
    requires forall i :: 0 <= i < |outs| ==> outs[i].number == s.nextFile + i
    requires Installs(s.store.version, CompactionEdit(c, outs), t.store.version)
    requires t == s.(store := s.store.(version := t.store.version), nextFile := s.nextFile + |outs|, floor := t.floor)
    requires t.floor == (if SmallestSnapshot(s) > s.floor then SmallestSnapshot(s) else s.floor)
    ensures Compact(s, t, c, input, SmallestSnapshot(s), outs)
    ensures Harmless(s.store.version, c, input, SmallestSnapshot(s)) ==> Consistent(t)
    ensures Clean(s.store.version) ==> Consistent(t)
    ensures Clean(s.store.version) && s.snapshots == [] ==> Clean(t.store.version)
  {
    var v, w := s.store.version, t.store.version;
    FreshOutputs(v, c, outs, s.nextFile);
    CompactionEditReplaces(v, c, outs, w);
    assert Compact(s, t, c, input, SmallestSnapshot(s), outs) && c.level < NUM_LEVELS;
    hide *;
    if Clean(v) {
      CleanCompaction(s, t, c, input, outs);
    }
    if Harmless(v, c, input, SmallestSnapshot(s)) {
      CompactKeepsConsistent(s, t, c, input, SmallestSnapshot(s), outs);
    }
  }

  lemma MoveInstalled(s: State, t: State, c: Inputs)
    requires Consistent(s) && TrivialMove(s, t, c)
    ensures NoneGoesOn(s.store.version, c) ==> Consistent(t)
    ensures Clean(s.store.version) ==> Consistent(t) && Clean(t.store.version)
  {
    hide WellShaped, Agree, GoodInputs, Replaced, Clean, NoneGoesOn, Disjoint;
    TrivialMoveKeepsConsistent(s, t, c);
    if Clean(s.store.version) {
      CleanMeansNoneGoesOn(s.store.version, c);
      SingleInputIsDrawn(c);
      OneIsDisjoint(c.in0[0]);
      CleanCutKeepsClean(s.store.version, t.store.version, c, {c.in0[0]});
    }
  }

  lemma OneIsDisjoint(f: TableFile)
    ensures Disjoint({f})
  {
  }

  /** Sizes that steer a compaction, and how large a file of given entries gets. */
  datatype Limits = Limits(outputSize: nat, grandparentOverlap: nat, expandedSize: nat, sizeOf: seq<Entry> -> nat)

  lemma FileAtOneLevel(v: Version, l: nat, m: nat, f: TableFile)
    requires WellShaped(v) && l < NUM_LEVELS && m < NUM_LEVELS && f in v[l] && f in v[m]
    ensures l == m
  {
    assert f.entries[0] in ToSet(f.entries);
    assert l < m ==> NewerFile(f, f);
    assert m < l ==> NewerFile(f, f);
  }

  lemma EditLevelsExist(c: Inputs, outs: seq<TableFile>)
    requires c.level + 1 < NUM_LEVELS
    ensures LevelsExist(CompactionEdit(c, outs))
  {
  }

  lemma MoveEdit(v: Version, c: Inputs)
    requires WellShaped(v) && GoodInputs(v, c) && |c.in0| == 1
    ensures LevelsExist(CompactionEdit(c, c.in0)) && FreshAdditions(v, CompactionEdit(c, c.in0))
    ensures forall l, f :: 0 <= l < NUM_LEVELS && f in v[l] && f in c.in0 ==> IsInput(c, l, f)
    ensures forall f, g :: f in AllFiles(v) && g in c.in0 && f.number == g.number ==> f == g
  {
    var m := c.in0[0];
    assert m in c.in0 && m in v[c.level] && m in AllFiles(v);
    EditLevelsExist(c, c.in0);
    CompactionEditLevels(c, c.in0);
    assert ToSet(c.in0) == {m};
    forall l | 0 <= l < NUM_LEVELS && m in v[l] ensures l == c.level {
      FileAtOneLevel(v, l, c.level, m);
    }
    forall l | 0 <= l < NUM_LEVELS
      ensures Identified(ToSet(v[l]) + NewAt(CompactionEdit(c, c.in0), l))
      ensures ToSet(v[l]) !! NewAt(CompactionEdit(c, c.in0), l)
    {
      assert ToSet(v[l]) + NewAt(CompactionEdit(c, c.in0), l) <= AllFiles(v);
    }
  }

  lemma FreshOutputs(v: Version, c: Inputs, outs: seq<TableFile>, nextFile: nat)
    requires WellShaped(v) && GoodInputs(v, c)
    requires forall f :: f in AllFiles(v) ==> f.number < nextFile
    requires forall i :: 0 <= i < |outs| ==> outs[i].number == nextFile + i
    ensures LevelsExist(CompactionEdit(c, outs)) && FreshAdditions(v, CompactionEdit(c, outs))
    ensures forall l, f :: 0 <= l < NUM_LEVELS && f in v[l] && f in outs ==> IsInput(c, l, f)
    ensures forall f, g :: f in AllFiles(v) && g in outs && f.number == g.number ==> f == g
  {
    EditLevelsExist(c, outs);
    CompactionEditLevels(c, outs);
    FreshNumbersIdentify(v, outs);
    forall l | 0 <= l < NUM_LEVELS
      ensures Identified(ToSet(v[l]) + NewAt(CompactionEdit(c, outs), l))
      ensures ToSet(v[l]) !! NewAt(CompactionEdit(c, outs), l)
    {
      assert ToSet(v[l]) + NewAt(CompactionEdit(c, outs), l) <= AllFiles(v) + ToSet(outs);
      assert forall f :: f in ToSet(v[l]) ==> f in AllFiles(v) && f.number < nextFile;
      assert forall f :: f in NewAt(CompactionEdit(c, outs), l) ==> f in ToSet(outs) && f.number >= nextFile;
    }
  }

  lemma SomeReport(entries: set<Entry>, u: UserKey, s: SequenceNumber) returns (l: Lookup)
    ensures Reports(entries, u, s, l)
  {
    if c :| c in entries && Candidate(c, u, s) {
      var e := NewestExists(entries, u, s, c);
      l := ToLookup(e);
    } else {
      l := Missing;
    }
  }

  lemma FlushEdit(v: Version, level: nat, f: TableFile, number: nat)
    requires WellShaped(v) && level < NUM_LEVELS && f.number == number
    requires forall g :: g in AllFiles(v) ==> g.number < number
    ensures var edit := VersionEdit(None, None, None, [], [(level, f)]);
            LevelsExist(edit) && FreshAdditions(v, edit)
  {
    var edit := VersionEdit(None, None, None, [], [(level, f)]);
    forall l | 0 <= l < NUM_LEVELS
      ensures Identified(ToSet(v[l]) + NewAt(edit, l)) && ToSet(v[l]) !! NewAt(edit, l)
    {
      assert forall g :: g in NewAt(edit, l) ==> g == f;
      assert forall g :: g in ToSet(v[l]) ==> g in AllFiles(v);
    }
  }

  lemma FlushInstalls(v: Version, w: Version, level: nat, f: TableFile)
    requires level < NUM_LEVELS
    requires Installs(v, VersionEdit(None, None, None, [], [(level, f)]), w)
    ensures FileAdded(v, w, level, f)
  {
    var edit := VersionEdit(None, None, None, [], [(level, f)]);
    forall l | 0 <= l < NUM_LEVELS ensures ToSet(w[l]) == ToSet(v[l]) + (if l == level then {f} else {}) {
      assert DeletedAt(edit, l) == {};
      assert NewAt(edit, l) == if l == level then {f} else {} by {
        assert (level, f) in edit.newFiles;
      }
    }
  }
}
