/** What is on disk, and why opening the database again after a crash loses no logged write. */
module Recovery {
  import opened Entries
  import opened Versions
  import opened VersionBuilder
  import opened CompactionInputs
  import opened Engine
  import opened DB

  /** The manifest that CURRENT names, the log files with their records, and the table files.
      A record of a log is one batch. */
  datatype Disk = Disk(manifest: seq<VersionEdit>, logs: map<nat, seq<seq<Entry>>>, tables: map<nat, TableFile>)

  // ----- The manifest -----

  function RecordedLog(m: seq<VersionEdit>): nat {
    if m == [] then 0
    else if m[|m| - 1].logNumber.Some? then m[|m| - 1].logNumber.value
    else RecordedLog(m[..|m| - 1])
  }

  function RecordedNextFile(m: seq<VersionEdit>): nat {
    if m == [] then 0
    else if m[|m| - 1].nextFileNumber.Some? then m[|m| - 1].nextFileNumber.value
    else RecordedNextFile(m[..|m| - 1])
  }

  function RecordedSequence(m: seq<VersionEdit>): SequenceNumber {
    if m == [] then 0
    else if m[|m| - 1].lastSequence.Some? then m[|m| - 1].lastSequence.value
    else RecordedSequence(m[..|m| - 1])
  }

  /** What the records of a manifest do to one level. */
  ghost function LevelEdits(m: seq<VersionEdit>, level: nat): (r: seq<LevelEdit>)
    ensures |r| == |m|
  {
    if m == [] then []
    else LevelEdits(m[..|m| - 1], level) + [LevelEdit(DeletedAt(m[|m| - 1], level), NewAt(m[|m| - 1], level))]
  }

  ghost function ManifestFiles(m: seq<VersionEdit>): set<TableFile> {
    set i, p | 0 <= i < |m| && p in m[i].newFiles :: p.1
  }

  ghost predicate WellFormedManifest(m: seq<VersionEdit>) {
    && Identified(ManifestFiles(m))
    && forall i :: 0 <= i < |m| ==> LevelsExist(m[i])
  }

  /** `v` is the version a manifest stands for. */
  ghost predicate IsReplay(m: seq<VersionEdit>, v: Version) {
    forall l :: 0 <= l < NUM_LEVELS ==>
      && Ordered(v[l])
      && forall f :: f in v[l] <==>
           f in AddedBy(LevelEdits(m, l)) && f.number !in DeletedBy(LevelEdits(m, l))
  }

  lemma LevelEditsSnoc(m: seq<VersionEdit>, e: VersionEdit, l: nat)
    ensures LevelEdits(m + [e], l) == LevelEdits(m, l) + [LevelEdit(DeletedAt(e, l), NewAt(e, l))]
    ensures AddedBy(LevelEdits(m + [e], l)) == AddedBy(LevelEdits(m, l)) + NewAt(e, l)
    ensures DeletedBy(LevelEdits(m + [e], l)) == (DeletedBy(LevelEdits(m, l)) + DeletedAt(e, l)) - Numbers(NewAt(e, l))
  {
    assert (m + [e])[..|m|] == m;
    var edits := LevelEdits(m, l);
    assert (edits + [LevelEdit(DeletedAt(e, l), NewAt(e, l))])[..|edits|] == edits;
  }

  lemma ManifestFilesSnoc(m: seq<VersionEdit>, e: VersionEdit)
    ensures ManifestFiles(m) <= ManifestFiles(m + [e])
    ensures forall l :: NewAt(e, l) <= ManifestFiles(m + [e])
    ensures forall f :: f in ManifestFiles(m + [e]) ==> f in ManifestFiles(m) || exists l :: f in NewAt(e, l)
  {
    var n := m + [e];
    forall f | f in ManifestFiles(m) ensures f in ManifestFiles(n) {
      var i, p :| 0 <= i < |m| && p in m[i].newFiles && p.1 == f;
      assert p in n[i].newFiles;
    }
    forall l, f | f in NewAt(e, l) ensures f in ManifestFiles(n) {
      var p :| p in e.newFiles && p.0 == l && p.1 == f;
      assert p in n[|m|].newFiles;
    }
    forall f | f in ManifestFiles(n) ensures f in ManifestFiles(m) || exists l :: f in NewAt(e, l) {
      var i, p :| 0 <= i < |n| && p in n[i].newFiles && p.1 == f;
      if i < |m| {
        assert p in m[i].newFiles;
      } else {
        assert f in NewAt(e, p.0);
      }
    }
  }

  lemma {:induction false} AddedWithinManifest(m: seq<VersionEdit>, l: nat)
    ensures AddedBy(LevelEdits(m, l)) <= ManifestFiles(m)
  {
    if m != [] {
      var n := |m| - 1;
      assert m == m[..n] + [m[n]];
      AddedWithinManifest(m[..n], l);
      LevelEditsSnoc(m[..n], m[n], l);
      ManifestFilesSnoc(m[..n], m[n]);
    }
  }

  /** Appending an edit to the manifest stands for installing it. */
  lemma ReplaySnoc(m: seq<VersionEdit>, v: Version, e: VersionEdit, w: Version)
    requires IsReplay(m, v) && Installs(v, e, w) && Identified(ManifestFiles(m + [e]))
    ensures IsReplay(m + [e], w)
  {
    forall l, f | 0 <= l < NUM_LEVELS
      ensures f in w[l] <==> f in AddedBy(LevelEdits(m + [e], l)) && f.number !in DeletedBy(LevelEdits(m + [e], l))
    {
      ReplayFile(m, v, e, w, l, f);
    }
  }

  lemma ReplayFile(m: seq<VersionEdit>, v: Version, e: VersionEdit, w: Version, l: nat, f: TableFile)
    requires IsReplay(m, v) && Installs(v, e, w) && Identified(ManifestFiles(m + [e])) && l < NUM_LEVELS
    ensures f in w[l] <==> f in AddedBy(LevelEdits(m + [e], l)) && f.number !in DeletedBy(LevelEdits(m + [e], l))
  {
    LevelEditsSnoc(m, e, l);
    AddedWithinManifest(m, l);
    ManifestFilesSnoc(m, e);
    assert f in NewAt(e, l) ==> f.number in Numbers(NewAt(e, l));
    if f in AddedBy(LevelEdits(m, l)) && f.number in Numbers(NewAt(e, l)) {
      var g :| g in NewAt(e, l) && g.number == f.number;
      assert f in ManifestFiles(m + [e]) && g in ManifestFiles(m + [e]);
    }
  }

  /** `VersionSet::Recover`: one builder over an empty version takes in every record. */
  method ReplayManifest(m: seq<VersionEdit>) returns (v: Version)
    requires WellFormedManifest(m)
    ensures IsReplay(m, v)
  {
    var empty: Version := EmptyVersion();
    var builder := new Builder(empty);
    for i := 0 to |m|
      invariant builder.Valid()
      invariant forall l :: 0 <= l < NUM_LEVELS ==> Took(m[..i], l, builder.deleted[l], builder.added[l])
    {
      assert m[..i + 1] == m[..i] + [m[i]];
      assert m == m[..i + 1] + m[i + 1..];
      forall l | 0 <= l < NUM_LEVELS ensures KnownFiles(empty[l], ToSet(builder.added[l]), NewAt(m[i], l)) {
        KnownInManifest(m, i, l, builder.added[l], empty[l]);
      }
      ghost var del, add := builder.deleted, builder.added;
      builder.Apply(m[i]);
      forall l | 0 <= l < NUM_LEVELS ensures Took(m[..i + 1], l, builder.deleted[l], builder.added[l]) {
        LevelEditsSnoc(m[..i], m[i], l);
        assert Took(m[..i], l, del[l], add[l]);
      }
    }
    assert m[..|m|] == m;
    v := builder.SaveTo();
    forall l | 0 <= l < NUM_LEVELS
      ensures Ordered(v[l])
      ensures forall f :: f in v[l] <==> f in AddedBy(LevelEdits(m, l)) && f.number !in DeletedBy(LevelEdits(m, l))
    {
      assert Took(m, l, builder.deleted[l], builder.added[l]);
      assert forall f :: f in builder.added[l] <==> f in ToSet(builder.added[l]);
      SaveLevelMembers(empty[l], builder.added[l], builder.deleted[l]);
      SaveLevelOrdered(empty[l], builder.added[l], builder.deleted[l]);
    }
  }

  ghost predicate Took(m: seq<VersionEdit>, l: nat, deleted: set<nat>, added: seq<TableFile>) {
    && deleted == DeletedBy(LevelEdits(m, l))
    && ToSet(added) == AddedBy(LevelEdits(m, l))
  }

  lemma KnownInManifest(m: seq<VersionEdit>, i: nat, l: nat, added: seq<TableFile>, none: seq<TableFile>)
    requires i < |m| && Identified(ManifestFiles(m)) && none == []
    requires ToSet(added) == AddedBy(LevelEdits(m[..i], l))
    ensures KnownFiles(none, ToSet(added), NewAt(m[i], l))
  {
    AddedWithinManifest(m[..i], l);
    forall f | f in ManifestFiles(m[..i]) ensures f in ManifestFiles(m) {
      var j, p :| 0 <= j < i && p in m[..i][j].newFiles && p.1 == f;
      assert p in m[j].newFiles;
    }
    forall f | f in NewAt(m[i], l) ensures f in ManifestFiles(m) {
      var p :| p in m[i].newFiles && p.0 == l && p.1 == f;
    }
    assert ToSet(none) + ToSet(added) + NewAt(m[i], l) <= ManifestFiles(m);
  }

  // ----- The logs -----

  ghost function RecordEntries(records: seq<seq<Entry>>): set<Entry> {
    set r, e | r in records && e in r :: e
  }

  ghost predicate RecordsInOrder(records: seq<seq<Entry>>) {
    && (forall i :: 0 <= i < |records| ==> InSequence(records[i]))
    && forall i, j :: 0 <= i < j < |records| ==> AllBefore(ToSet(records[i]), ToSet(records[j]))
  }

  ghost function EntriesFrom(logs: map<nat, seq<seq<Entry>>>, from: nat): set<Entry> {
    set n, e | n in logs && from <= n && e in RecordEntries(logs[n]) :: e
  }

  ghost predicate LogsInOrder(logs: map<nat, seq<seq<Entry>>>, from: nat) {
    && (forall n :: n in logs && from <= n ==> RecordsInOrder(logs[n]))
    && forall m, n :: m in logs && n in logs && from <= m < n ==> AllBefore(RecordEntries(logs[m]), RecordEntries(logs[n]))
  }

  /** Files made of consecutive stretches of the logs, numbered in that order. */
  ghost predicate FilesInOrder(files: seq<TableFile>) {
    forall i, j :: 0 <= i < j < |files| ==>
      files[i].number < files[j].number && AllBefore(ToSet(files[i].entries), ToSet(files[j].entries))
  }

  ghost function FilesHold(files: seq<TableFile>): set<Entry> {
    FileSetEntries(ToSet(files))
  }

  lemma FilesHoldSnoc(files: seq<TableFile>, f: TableFile)
    ensures FilesHold(files + [f]) == FilesHold(files) + ToSet(f.entries)
  {
    assert ToSet(files + [f]) == ToSet(files) + {f};
  }

  lemma RecordEntriesSnoc(records: seq<seq<Entry>>, r: seq<Entry>)
    ensures RecordEntries(records + [r]) == RecordEntries(records) + ToSet(r)
  {
  }

  /** Files recovered so far: in order, with fresh numbers. */
  ghost predicate RecoveredFiles(files: seq<TableFile>, first: nat, next: nat) {
    && FilesInOrder(files)
    && first <= next
    && forall f :: f in files ==> first <= f.number < next
  }

  lemma FileAppended(files: seq<TableFile>, first: nat, next: nat, f: TableFile)
    requires RecoveredFiles(files, first, next) && f.number == next && AllBefore(FilesHold(files), ToSet(f.entries))
    ensures RecoveredFiles(files + [f], first, next + 1)
    ensures FilesHold(files + [f]) == FilesHold(files) + ToSet(f.entries)
  {
    FilesHoldSnoc(files, f);
    forall i | 0 <= i < |files| ensures files[i].number < next && AllBefore(ToSet(files[i].entries), ToSet(f.entries)) {
      assert files[i] in files;
      assert ToSet(files[i].entries) <= FilesHold(files);
    }
  }

  /** `WriteLevel0Table` during recovery: always level 0. */
  method FlushRecovered(files: seq<TableFile>, mem: seq<Entry>, ghost first: nat, next: nat, size: nat)
    returns (files': seq<TableFile>, next': nat)
    requires RecoveredFiles(files, first, next) && Sorted(mem) && AllBefore(FilesHold(files), ToSet(mem))
    ensures RecoveredFiles(files', first, next') && next' == next + 1
    ensures FilesHold(files') == FilesHold(files) + ToSet(mem)
  {
    files', next' := files, next + 1;
    if mem != [] {
      var f: TableFile := File(next, size, mem);
      FileAppended(files, first, next, f);
      files' := files + [f];
    } else {
      assert ToSet(mem) == {};
    }
  }

  /** The last entry of a record has its largest sequence number. */
  method LargerSequence(record: seq<Entry>, max: SequenceNumber) returns (max': SequenceNumber)
    requires InSequence(record)
    ensures max <= max' && UpTo(ToSet(record), max')
    ensures max' == max || exists e :: e in ToSet(record) && e.k.seqno == max'
  {
    max' := max;
    if record != [] {
      LastIsLargest(record);
      if record[|record| - 1].k.seqno > max {
        max' := record[|record| - 1].k.seqno;
      }
    }
  }

  /** Reads one log from the start, record by record, flushing whenever the memtable is full and
      once more at the end. */
  method RecoverLogFile(records: seq<seq<Entry>>, files: seq<TableFile>, ghost first: nat, next: nat,
                        maxSequence: SequenceNumber, full: seq<Entry> -> bool, sizeOf: seq<Entry> -> nat)
    returns (files': seq<TableFile>, next': nat, max: SequenceNumber)
    requires RecordsInOrder(records) && RecoveredFiles(files, first, next)
    requires AllBefore(FilesHold(files), RecordEntries(records))
    ensures RecoveredFiles(files', first, next') && next <= next'
    ensures FilesHold(files') == FilesHold(files) + RecordEntries(records)
    ensures maxSequence <= max && UpTo(RecordEntries(records), max)
    ensures max == maxSequence || exists e :: e in RecordEntries(records) && e.k.seqno == max
  {
    assert records[..0] == [] && RecordEntries(records[..0]) == {};
    hide RecoveredFiles, FilesHold;
    files', next', max := files, next, maxSequence;
    var mem: seq<Entry>, present := [], false;
    for i := 0 to |records|
      invariant !present ==> mem == []
      invariant Sorted(mem) && RecoveredFiles(files', first, next') && next <= next'
      invariant AllBefore(FilesHold(files'), ToSet(mem))
      invariant FilesHold(files') + ToSet(mem) == FilesHold(files) + RecordEntries(records[..i])
      invariant maxSequence <= max && UpTo(RecordEntries(records[..i]), max)
      invariant max == maxSequence || exists e :: e in RecordEntries(records[..i]) && e.k.seqno == max
    {
      var record := records[i];
      assert records[..i + 1] == records[..i] + [record];
      RecordEntriesSnoc(records[..i], record);
      RecordAfterRest(records, i, FilesHold(files));
      mem := InsertBatch(mem, record);
      present := true;
      max := LargerSequence(record, max);
      if full(mem) {
        files', next' := FlushRecovered(files', mem, first, next', sizeOf(mem));
        mem, present := [], false;
      }
    }
    assert records[..|records|] == records;
    if present {
      files', next' := FlushRecovered(files', mem, first, next', sizeOf(mem));
    }
  }

  lemma RecordAfterRest(records: seq<seq<Entry>>, i: nat, earlier: set<Entry>)
    requires RecordsInOrder(records) && i < |records|
    requires AllBefore(earlier, RecordEntries(records))
    ensures AllBefore(earlier + RecordEntries(records[..i]), ToSet(records[i]))
  {
    forall e, o | e in earlier + RecordEntries(records[..i]) && o in ToSet(records[i]) ensures e.k.seqno < o.k.seqno {
      assert records[i] in records && o in RecordEntries(records);
      if e !in earlier {
        var r :| r in records[..i] && e in r;
        var j :| 0 <= j < i && records[j] == r;
        assert e in ToSet(records[j]);
      }
    }
  }

  lemma LastIsLargest(record: seq<Entry>)
    requires InSequence(record) && record != []
    ensures UpTo(ToSet(record), record[|record| - 1].k.seqno)
  {
  }
}
