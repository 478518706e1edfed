/** The engine together with its disk.  A crash may come between any two steps; opening the database
    again from what is on disk then loses no logged write. */
module CrashSafety {
  import opened Entries
  import opened Versions
  import opened VersionBuilder
  import opened CompactionInputs
  import opened Compactions
  import opened LevelInvariant
  import opened CleanCuts
  import opened Engine
  import opened DB
  import opened Recovery
  import opened Reopen
  import opened Opening
  import PlainMaps

  /** `pending` is a batch that is in the log but not yet in the memtable; `logNumber` is the first
      log still needed and `curLog` the one being written. */
  datatype Node = Node(state: State, disk: Disk, logNumber: nat, curLog: nat, pending: seq<Op>)

  ghost predicate RoomFor(s: State, ops: seq<Op>) {
    s.lastSequence + |ops| < MAX_SEQUENCE
  }

  ghost function NextEntries(s: State, ops: seq<Op>): seq<Entry>
    requires RoomFor(s, ops)
  {
    BatchEntries(ops, s.lastSequence + 1)
  }

  /** Every batch that is completely in a log, applied or not. */
  ghost function Logged(n: Node): set<Entry>
    requires RoomFor(n.state, n.pending)
  {
    n.state.history + ToSet(NextEntries(n.state, n.pending))
  }

  // ----- The invariant -----

  /** What is not in a file of the current version is in a log that is still kept. */
  ghost predicate LogsHoldMemtables(n: Node) {
    && RoomFor(n.state, n.pending)
    && n.logNumber <= n.curLog && n.curLog in n.disk.logs
    && LogsInOrder(n.disk.logs, n.logNumber)
    && (var p := ToSet(NextEntries(n.state, n.pending));
        && EntriesFrom(n.disk.logs, n.logNumber) == n.state.store.mem + n.state.store.imm + p
        && EntriesFrom(n.disk.logs, n.curLog) == n.state.store.mem + p)
    && (forall k :: k in n.disk.logs ==> k <= n.curLog)
    && n.curLog < n.state.nextFile
  }

  /** The manifest stands for the current version, and its tables are there. */
  ghost predicate ManifestHoldsVersion(n: Node) {
    var v, m := n.state.store.version, n.disk.manifest;
    && WellFormedManifest(m) && IsReplay(m, v)
    && RecordedLog(m) == n.logNumber < RecordedNextFile(m)
    && AllPresent(v, n.disk.tables)
    && (forall f :: f in AllFiles(v) ==> f.number < RecordedNextFile(m))
    && RecordedNextFile(m) <= n.state.nextFile
    && (forall f :: f in ManifestFiles(m) ==> f.number < n.state.nextFile)
  }

  /** Sequence numbers that are in no kept log are covered by the number in the manifest. */
  ghost predicate SequenceRecorded(n: Node) {
    var last := RecordedSequence(n.disk.manifest);
    && n.state.floor <= last <= n.state.lastSequence
    && forall e :: e in n.state.history ==> e.k.seqno <= last || e in EntriesFrom(n.disk.logs, n.logNumber)
  }

  ghost predicate Durable(n: Node) {
    Consistent(n.state) && LogsHoldMemtables(n) && ManifestHoldsVersion(n) && SequenceRecorded(n)
  }

  // ----- Logging a batch -----

  ghost predicate LogWrite(n: Node, t: Node, ops: seq<Op>) {
    && n.pending == [] && RoomFor(n.state, ops) && n.curLog in n.disk.logs
    && t == n.(pending := ops,
               disk := n.disk.(logs := n.disk.logs[n.curLog := n.disk.logs[n.curLog] + [NextEntries(n.state, ops)]]))
  }

  lemma EntriesFromAppend(logs: map<nat, seq<seq<Entry>>>, cur: nat, record: seq<Entry>, from: nat)
    requires cur in logs && from <= cur
    ensures EntriesFrom(logs[cur := logs[cur] + [record]], from) == EntriesFrom(logs, from) + ToSet(record)
  {
    RecordEntriesSnoc(logs[cur], record);
    var after := logs[cur := logs[cur] + [record]];
    forall e | e in EntriesFrom(after, from) ensures e in EntriesFrom(logs, from) + ToSet(record) {
      var k :| k in after && from <= k && e in RecordEntries(after[k]);
    }
    forall e | e in EntriesFrom(logs, from) + ToSet(record) ensures e in EntriesFrom(after, from) {
      if e in EntriesFrom(logs, from) {
        var k :| k in logs && from <= k && e in RecordEntries(logs[k]);
        assert e in RecordEntries(after[k]);
      } else {
        assert e in RecordEntries(after[cur]);
      }
    }
  }

  lemma LogsInOrderAppend(logs: map<nat, seq<seq<Entry>>>, cur: nat, record: seq<Entry>, from: nat)
    requires cur in logs && from <= cur && (forall k :: k in logs ==> k <= cur)
    requires LogsInOrder(logs, from) && InSequence(record) && AllBefore(EntriesFrom(logs, from), ToSet(record))
    ensures LogsInOrder(logs[cur := logs[cur] + [record]], from)
  {
    var after := logs[cur := logs[cur] + [record]];
    RecordEntriesSnoc(logs[cur], record);
    assert RecordsInOrder(logs[cur]);
    assert RecordsInOrder(after[cur]) by {
      forall i | 0 <= i < |logs[cur]| ensures AllBefore(ToSet(logs[cur][i]), ToSet(record)) {
        assert logs[cur][i] in logs[cur];
        assert ToSet(logs[cur][i]) <= RecordEntries(logs[cur]);
        assert ToSet(logs[cur][i]) <= EntriesFrom(logs, from);
      }
    }
    forall m, k | m in after && k in after && from <= m < k ensures AllBefore(RecordEntries(after[m]), RecordEntries(after[k])) {
      assert m != cur && RecordEntries(logs[m]) <= EntriesFrom(logs, from);
    }
  }

  lemma LogWriteKeepsDurable(n: Node, t: Node, ops: seq<Op>)
    requires Durable(n) && LogWrite(n, t, ops)
    ensures Durable(t)
    ensures Logged(t) == Logged(n) + ToSet(NextEntries(n.state, ops))
  {
    hide WellShaped, Agree, LogsInOrder, WellFormedManifest, IsReplay, ManifestFiles, AllPresent;
    var record := NextEntries(n.state, ops);
    assert ToSet(NextEntries(n.state, [])) == {};
    EntriesFromAppend(n.disk.logs, n.curLog, record, n.logNumber);
    EntriesFromAppend(n.disk.logs, n.curLog, record, n.curLog);
    assert EntriesFrom(n.disk.logs, n.logNumber) <= n.state.history;
    assert InSequence(record) && AllBefore(EntriesFrom(n.disk.logs, n.logNumber), ToSet(record));
    hide BatchEntries, EntriesFrom, InSequence, AllBefore;
    LogsInOrderAppend(n.disk.logs, n.curLog, record, n.logNumber);
  }

  // ----- Applying it -----

  ghost predicate ApplyWrite(n: Node, t: Node) {
    && RoomFor(n.state, n.pending)
    && Write(n.state, t.state, n.pending)
    && t == n.(state := t.state, pending := [])
  }

  lemma ApplyWriteEffect(n: Node, t: Node)
    requires ApplyWrite(n, t)
    ensures t.state.history == n.state.history + ToSet(NextEntries(n.state, n.pending))
    ensures t.state.store.mem == n.state.store.mem + ToSet(NextEntries(n.state, n.pending))
    ensures RoomFor(t.state, t.pending) && ToSet(NextEntries(t.state, t.pending)) == {}
    ensures Logged(t) == Logged(n)
  {
    assert t.pending == [] && NextEntries(t.state, []) == [];
  }

  lemma ApplyWriteKeepsDurable(n: Node, t: Node)
    requires Durable(n) && ApplyWrite(n, t)
    ensures Durable(t)
    ensures Logged(t) == Logged(n)
  {
    hide Consistent, BatchEntries, LogsInOrder, WellFormedManifest, IsReplay, ManifestFiles, AllPresent;
    assert UpTo(ToSet(NextEntries(n.state, n.pending)), n.state.lastSequence + |n.pending|);
    WriteKeepsConsistent(n.state, t.state, n.pending);
    ApplyWriteEffect(n, t);
    assert t.disk == n.disk && t.state.store.version == n.state.store.version && t.state.store.imm == n.state.store.imm;
    assert ToSet(NextEntries(n.state, n.pending)) <= EntriesFrom(n.disk.logs, n.logNumber);
    assert SequenceRecorded(t);
    assert ManifestHoldsVersion(t);
    assert LogsHoldMemtables(t);
  }

  // ----- Switching to a new memtable and log -----

  ghost predicate SwitchLog(n: Node, t: Node) {
    && n.pending == [] && Switch(n.state, t.state) && t.state.nextFile == n.state.nextFile + 1
    && t == n.(state := t.state, curLog := n.state.nextFile,
               disk := n.disk.(logs := n.disk.logs[n.state.nextFile := []]))
  }

  lemma SwitchLogKeepsDurable(n: Node, t: Node)
    requires Durable(n) && SwitchLog(n, t)
    ensures Durable(t)
    ensures Logged(t) == Logged(n)
  {
    SwitchKeepsConsistent(n.state, t.state);
    assert ToSet(NextEntries(n.state, [])) == {} && ToSet(NextEntries(t.state, [])) == {};
    EmptyLogAddsNothing(n.disk.logs, n.state.nextFile, n.logNumber);
  }

  // ----- Writing a table and installing a version -----

  /** A table is written under a fresh number before any manifest record names it. */
  ghost predicate WriteTable(n: Node, t: Node, f: TableFile) {
    && f.number == n.state.nextFile
    && t == n.(state := n.state.(nextFile := n.state.nextFile + 1),
               disk := n.disk.(tables := n.disk.tables[f.number := f]))
  }

  lemma WriteTableKeepsDurable(n: Node, t: Node, f: TableFile)
    requires Durable(n) && WriteTable(n, t, f)
    ensures Durable(t)
    ensures Logged(t) == Logged(n)
  {
    assert NextEntries(t.state, t.pending) == NextEntries(n.state, n.pending);
  }

  /** `LogAndApply`: the edit goes to the manifest with the log number, the file number and the
      sequence number of the moment, and the new version is installed. */
  ghost predicate LogAndApply(n: Node, t: Node, edit: VersionEdit, log: nat) {
    && n.logNumber <= log <= n.curLog
    && edit.nextFileNumber == Some(n.state.nextFile)
    && edit.lastSequence == Some(n.state.lastSequence)
    && edit.logNumber == Some(log)
    && LevelsExist(edit)
    && (forall l, f :: f in NewAt(edit, l) ==> f.number < n.state.nextFile && f.number in n.disk.tables && n.disk.tables[f.number] == f)
    && Identified(ManifestFiles(n.disk.manifest + [edit]))
    && Installs(n.state.store.version, edit, t.state.store.version)
    && t == n.(state := t.state, logNumber := log, disk := n.disk.(manifest := n.disk.manifest + [edit]))
    && t.state.nextFile == n.state.nextFile && t.state.lastSequence == n.state.lastSequence
    && t.state.history == n.state.history
  }

  lemma RecordedSnoc(m: seq<VersionEdit>, e: VersionEdit)
    ensures e.logNumber.Some? ==> RecordedLog(m + [e]) == e.logNumber.value
    ensures e.nextFileNumber.Some? ==> RecordedNextFile(m + [e]) == e.nextFileNumber.value
    ensures e.lastSequence.Some? ==> RecordedSequence(m + [e]) == e.lastSequence.value
  {
  }

  lemma InstalledVersionIsRecorded(n: Node, t: Node, edit: VersionEdit, log: nat)
    requires Durable(n) && LogAndApply(n, t, edit, log)
    ensures ManifestHoldsVersion(t)
  {
    var v, w, m := n.state.store.version, t.state.store.version, n.disk.manifest;
    RecordedSnoc(m, edit);
    ReplaySnoc(m, v, edit, w);
    ManifestFilesSnoc(m, edit);
    forall f | f in AllFiles(w) ensures f.number < n.state.nextFile && f.number in n.disk.tables && n.disk.tables[f.number] == f {
      var l :| 0 <= l < NUM_LEVELS && f in w[l];
      assert f in v[l] || f in NewAt(edit, l);
    }
    forall f | f in ManifestFiles(m + [edit]) ensures f.number < n.state.nextFile {
      if f !in ManifestFiles(m) {
        var l :| f in NewAt(edit, l);
      }
    }
  }

  lemma LaterLogsInOrder(logs: map<nat, seq<seq<Entry>>>, from: nat, later: nat)
    requires LogsInOrder(logs, from) && from <= later
    ensures LogsInOrder(logs, later)
  {
  }

  lemma InstalledLogs(n: Node, t: Node, edit: VersionEdit, log: nat)
    requires LogsHoldMemtables(n) && LogAndApply(n, t, edit, log)
    requires EntriesFrom(n.disk.logs, log) == t.state.store.mem + t.state.store.imm + ToSet(NextEntries(n.state, n.pending))
    requires t.state.store.mem == n.state.store.mem
    ensures LogsHoldMemtables(t) && Logged(t) == Logged(n)
  {
    hide BatchEntries, EntriesFrom, Installs, Identified, ManifestFiles, LogsInOrder, LevelsExist;
    LaterLogsInOrder(n.disk.logs, n.logNumber, log);
  }

  lemma InstalledSequence(n: Node, t: Node, edit: VersionEdit, log: nat)
    requires SequenceRecorded(n) && LogAndApply(n, t, edit, log) && UpTo(n.state.history, n.state.lastSequence)
    requires t.state.floor <= n.state.lastSequence
    ensures SequenceRecorded(t)
  {
    RecordedSnoc(n.disk.manifest, edit);
    hide RecordedSequence, EntriesFrom, Installs, Identified, ManifestFiles;
  }

  lemma {:induction false} InstallKeepsDurable(n: Node, t: Node, edit: VersionEdit, log: nat)
    requires Durable(n) && LogAndApply(n, t, edit, log) && Consistent(t.state)
    requires t.state.floor <= n.state.lastSequence
    requires EntriesFrom(n.disk.logs, log) == t.state.store.mem + t.state.store.imm + ToSet(NextEntries(n.state, n.pending))
    requires t.state.store.mem == n.state.store.mem
    ensures Durable(t)
    ensures Logged(t) == Logged(n)
  {
    assert UpTo(n.state.history, n.state.lastSequence);
    hide Consistent, LogAndApply, LogsHoldMemtables, ManifestHoldsVersion, SequenceRecorded, NextEntries, EntriesFrom, Logged;
    InstalledVersionIsRecorded(n, t, edit, log);
    InstalledLogs(n, t, edit, log);
    InstalledSequence(n, t, edit, log);
  }

  ghost predicate InstallFlush(n: Node, t: Node, level: nat, f: TableFile, edit: VersionEdit) {
    && Flush(n.state, t.state, level, f)
    && LogAndApply(n, t, edit, n.curLog)
  }

  /** An empty memtable leaves no file, but its log is no longer needed. */
  ghost predicate InstallEmptyFlush(n: Node, t: Node, edit: VersionEdit) {
    && n.state.store.imm == {} && t.state == n.state
    && LogAndApply(n, t, edit, n.curLog)
  }

  ghost predicate InstallCompaction(n: Node, t: Node, c: Inputs, input: seq<Entry>, snapshot: SequenceNumber,
                                    outs: seq<TableFile>, edit: VersionEdit) {
    && Compact(n.state, t.state, c, input, snapshot, outs)
    && LogAndApply(n, t, edit, n.logNumber)
  }

  ghost predicate InstallMove(n: Node, t: Node, c: Inputs, edit: VersionEdit) {
    && TrivialMove(n.state, t.state, c)
    && LogAndApply(n, t, edit, n.logNumber)
  }

  lemma InstallFlushKeepsDurable(n: Node, t: Node, level: nat, f: TableFile, edit: VersionEdit)
    requires Durable(n) && InstallFlush(n, t, level, f, edit)
    ensures Durable(t) && Logged(t) == Logged(n)
  {
    FlushKeepsConsistent(n.state, t.state, level, f);
    InstallKeepsDurable(n, t, edit, n.curLog);
  }

  lemma InstallEmptyFlushKeepsDurable(n: Node, t: Node, edit: VersionEdit)
    requires Durable(n) && InstallEmptyFlush(n, t, edit)
    ensures Durable(t) && Logged(t) == Logged(n)
  {
    InstallKeepsDurable(n, t, edit, n.curLog);
  }

  lemma InstallCompactionKeepsDurable(n: Node, t: Node, c: Inputs, input: seq<Entry>, snapshot: SequenceNumber,
                                      outs: seq<TableFile>, edit: VersionEdit)
    requires Durable(n) && InstallCompaction(n, t, c, input, snapshot, outs, edit)
    requires Harmless(n.state.store.version, c, input, snapshot)
    ensures Durable(t) && Logged(t) == Logged(n)
  {
    CompactKeepsConsistent(n.state, t.state, c, input, snapshot, outs);
    InstallKeepsDurable(n, t, edit, n.logNumber);
  }

  lemma InstallMoveKeepsDurable(n: Node, t: Node, c: Inputs, edit: VersionEdit)
    requires Durable(n) && InstallMove(n, t, c, edit) && NoneGoesOn(n.state.store.version, c)
    ensures Durable(t) && Logged(t) == Logged(n)
  {
    TrivialMoveKeepsConsistent(n.state, t.state, c);
    InstallKeepsDurable(n, t, edit, n.logNumber);
  }

  // ----- Deleting what is no longer needed -----

  /** Any logs below the recorded number and any tables outside the version may go, all at once or
      one by one. */
  ghost predicate DeleteObsoleteFiles(n: Node, t: Node) {
    && t == n.(disk := t.disk) && t.disk.manifest == n.disk.manifest
    && (forall k :: k in t.disk.logs ==> k in n.disk.logs && t.disk.logs[k] == n.disk.logs[k])
    && (forall k :: k in n.disk.logs && n.logNumber <= k ==> k in t.disk.logs)
    && (forall k :: k in t.disk.tables ==> k in n.disk.tables && t.disk.tables[k] == n.disk.tables[k])
    && (forall f :: f in AllFiles(n.state.store.version) && f.number in n.disk.tables ==> f.number in t.disk.tables)
  }

  lemma EntriesFromKept(n: Node, t: Node, from: nat)
    requires DeleteObsoleteFiles(n, t) && n.logNumber <= from
    ensures EntriesFrom(t.disk.logs, from) == EntriesFrom(n.disk.logs, from)
  {
    forall e | e in EntriesFrom(n.disk.logs, from) ensures e in EntriesFrom(t.disk.logs, from) {
      var k :| k in n.disk.logs && from <= k && e in RecordEntries(n.disk.logs[k]);
      assert k in t.disk.logs;
    }
  }

  lemma DeleteKeepsDurable(n: Node, t: Node)
    requires Durable(n) && DeleteObsoleteFiles(n, t)
    ensures Durable(t) && Logged(t) == Logged(n)
  {
    EntriesFromKept(n, t, n.logNumber);
    EntriesFromKept(n, t, n.curLog);
    hide Consistent, BatchEntries, EntriesFrom, WellFormedManifest, IsReplay, ManifestFiles, AllBefore, RecordsInOrder;
  }

  ghost predicate SnapshotStep(n: Node, t: Node) {
    && t == n.(state := t.state)
    && (GetSnapshot(n.state, t.state) || exists i :: ReleaseSnapshot(n.state, t.state, i))
  }

  lemma SnapshotStepKeepsDurable(n: Node, t: Node)
    requires Durable(n) && SnapshotStep(n, t)
    ensures Durable(t) && Logged(t) == Logged(n)
  {
    hide WellShaped, LogsInOrder, WellFormedManifest, IsReplay, VersionEntries, ManifestFiles, Agree;
    SnapshotsKeepConsistent(n.state, t.state);
    assert NextEntries(t.state, t.pending) == NextEntries(n.state, n.pending);
  }

  // ----- Crashing and opening again -----

  /** A freshly opened engine: empty memtables, no snapshots, one log. */
  ghost function OpenedNode(o: Opened, history: set<Entry>, floor: nat): Node {
    Node(State(Store({}, {}, o.version), o.lastSequence, [], o.nextFile, history, floor), o.disk, o.curLog, o.curLog, [])
  }

  lemma OpenedVersion(disk: Disk, v: Version, o: Opened, files: seq<TableFile>)
    requires Recoverable(disk, v) && Reopened(disk, v, o, files)
    ensures WellShaped(o.version) && AddedAtLevel0(v, o.version, files)
    ensures VersionEntries(o.version) == OnDisk(disk, v)
  {
    RecoveryEditAtLevel(o.curLog, o.nextFile, o.lastSequence, files);
    RecoveredEntries(v, o.version, files);
    forall f, g | f in files && g in AllFiles(v) ensures g.number < f.number && NewerFile(f, g) {
      FileWithinVersion(v, g);
      assert ToSet(f.entries) <= FilesHold(files);
    }
    RecoveredFilesKeepShape(v, o.version, files);
  }

  lemma OpenedManifest(disk: Disk, v: Version, o: Opened, files: seq<TableFile>)
    requires Recoverable(disk, v) && Reopened(disk, v, o, files)
    ensures WellFormedManifest(o.disk.manifest) && IsReplay(o.disk.manifest, o.version)
    ensures RecordedLog(o.disk.manifest) == o.curLog && RecordedNextFile(o.disk.manifest) == o.nextFile
    ensures RecordedSequence(o.disk.manifest) == o.lastSequence
    ensures forall f :: f in ManifestFiles(o.disk.manifest) ==> f.number < o.nextFile
  {
    hide WellShaped, LogsInOrder, TablesWritten;
    var first := SnapshotEdit(v);
    var edit := RecoveryEdit(o.curLog, o.nextFile, o.lastSequence, files);
    assert o.disk.manifest == [first] + [edit];
    RecordedSnoc([first], edit);
    OpenedManifestFiles(disk, v, o, files);
    SnapshotEditReplays(v);
    ReplaySnoc([first], v, edit, o.version);
  }

  /** The files that the new manifest speaks of. */
  lemma RecoveryManifestFiles(v: Version, curLog: nat, nextFile: nat, lastSequence: SequenceNumber, files: seq<TableFile>, f: TableFile)
    requires f in ManifestFiles([SnapshotEdit(v)] + [RecoveryEdit(curLog, nextFile, lastSequence, files)])
    ensures f in AllFiles(v) || f in files
  {
    var edit := RecoveryEdit(curLog, nextFile, lastSequence, files);
    SnapshotEditFiles(v);
    RecoveryEditAtLevel(curLog, nextFile, lastSequence, files);
    ManifestFilesSnoc([SnapshotEdit(v)], edit);
    if f !in ManifestFiles([SnapshotEdit(v)]) {
      var l :| f in NewAt(edit, l);
    }
  }

  lemma RecoveredNumbers(files: seq<TableFile>, first: nat, next: nat, f: TableFile, g: TableFile)
    requires RecoveredFiles(files, first, next) && f in files && g in files && f.number == g.number
    ensures f == g
  {
    LaterFileIsNewer(files, f, g);
  }

  lemma OpenedManifestFiles(disk: Disk, v: Version, o: Opened, files: seq<TableFile>)
    requires Recoverable(disk, v) && Reopened(disk, v, o, files)
    ensures var m := [SnapshotEdit(v)] + [RecoveryEdit(o.curLog, o.nextFile, o.lastSequence, files)];
            WellFormedManifest(m) && forall f :: f in ManifestFiles(m) ==> f.number < o.nextFile
  {
    assert Identified(AllFiles(v));
    hide WellShaped, LogsInOrder, TablesWritten, SnapshotEdit, RecoveryEdit, ManifestFiles, Installs, IsReplay, AllFiles, NewAt, DeletedAt,
      WellFormedManifest, RecoveredFiles;
    SnapshotEditFiles(v);
    RecoveryEditAtLevel(o.curLog, o.nextFile, o.lastSequence, files);
    var m := [SnapshotEdit(v)] + [RecoveryEdit(o.curLog, o.nextFile, o.lastSequence, files)];
    forall f | f in ManifestFiles(m) ensures f in AllFiles(v) || f in files {
      RecoveryManifestFiles(v, o.curLog, o.nextFile, o.lastSequence, files, f);
    }
    forall f, g | f in files && g in files && f.number == g.number ensures f == g {
      RecoveredNumbers(files, RecordedNextFile(disk.manifest) + 1, o.curLog, f, g);
    }
  }

  lemma OpenedFiles(disk: Disk, v: Version, o: Opened, files: seq<TableFile>)
    requires Recoverable(disk, v) && Reopened(disk, v, o, files) && AllPresent(v, disk.tables)
    ensures AllPresent(o.version, o.disk.tables)
    ensures forall f :: f in AllFiles(o.version) ==> f.number < o.nextFile
  {
    OpenedVersion(disk, v, o, files);
    forall f | f in AllFiles(o.version)
      ensures f.number in o.disk.tables && o.disk.tables[f.number] == f && f.number < o.nextFile
    {
      assert f in AllFiles(v) || f in files;
    }
  }

  lemma OpenedLogs(disk: Disk, v: Version, o: Opened, files: seq<TableFile>)
    requires Recoverable(disk, v) && Reopened(disk, v, o, files)
    ensures LogsInOrder(o.disk.logs, o.curLog)
    ensures EntriesFrom(o.disk.logs, o.curLog) == {}
    ensures forall k :: k in o.disk.logs ==> k <= o.curLog
  {
    assert RecordEntries(o.disk.logs[o.curLog]) == {};
  }

  /** Opening a disk that agrees with a history yields an engine whose invariant holds for it. */
  lemma OpenIsDurable(disk: Disk, v: Version, o: Opened, files: seq<TableFile>, history: set<Entry>, floor: nat)
    requires Recoverable(disk, v) && AllPresent(v, disk.tables) && Reopened(disk, v, o, files)
    requires Faithful(disk, v, history, floor)
    ensures Durable(OpenedNode(o, history, floor))
    ensures Logged(OpenedNode(o, history, floor)) == history
  {
    hide WellShaped, LogsInOrder, WellFormedManifest, IsReplay, Installs, TablesWritten, VersionEntries, Agree, ManifestFiles;
    var t := OpenedNode(o, history, floor);
    OpenedVersion(disk, v, o, files);
    OpenedManifest(disk, v, o, files);
    OpenedFiles(disk, v, o, files);
    OpenedLogs(disk, v, o, files);
    assert NextEntries(t.state, []) == [];
    assert Contents(t.state.store) == OnDisk(disk, v);
    assert Consistent(t.state);
  }

  /** The disk of a durable engine can be opened, whatever is in memory, and is faithful to all
      logged batches. */
  lemma DurableIsRecoverable(n: Node)
    requires Durable(n)
    ensures Recoverable(n.disk, n.state.store.version) && AllPresent(n.state.store.version, n.disk.tables)
    ensures Faithful(n.disk, n.state.store.version, Logged(n), n.state.floor)
  {
    hide WellShaped, LogsInOrder, WellFormedManifest, IsReplay, VersionEntries, ManifestFiles;
    var s, v := n.state, n.state.store.version;
    var p := ToSet(NextEntries(s, n.pending));
    assert OnDisk(n.disk, v) == Contents(s.store) + p;
    assert Newer(p, s.history);
    NewerOnTop(Contents(s.store), s.history, p, s.floor);
  }

  lemma DurableIsSafe(n: Node)
    requires Durable(n)
    ensures RoomFor(n.state, n.pending) && Safe(n.disk, n.state.store.version, Logged(n), n.state.floor)
  {
    DurableIsRecoverable(n);
  }

  /** Whether or not a batch was logged completely before a crash, the disk gives back what was. */
  lemma LoggedOrNotIsSafe(n: Node, t: Node, ops: seq<Op>)
    requires Durable(n) && LogWrite(n, t, ops)
    ensures RoomFor(n.state, n.pending)
    ensures Safe(n.disk.(logs := n.disk.logs), n.state.store.version, Logged(n), n.state.floor)
    ensures Safe(n.disk.(logs := t.disk.logs), n.state.store.version, Logged(n) + ToSet(NextEntries(n.state, ops)), n.state.floor)
  {
    LogWriteKeepsDurable(n, t, ops);
    assert t.disk == n.disk.(logs := t.disk.logs) && n.disk == n.disk.(logs := n.disk.logs) && t.state == n.state;
    hide Durable, LogWrite, Safe, Logged;
    DurableIsSafe(n);
    DurableIsSafe(t);
  }

  // ----- A new database -----

  /** `NewDB`: a manifest with one record and nothing else. */
  function NewDisk(): Disk {
    Disk([VersionEdit(Some(0), Some(2), Some(0), [], [])], map[], map[])
  }

  lemma NewDiskIsRecoverable()
    ensures Safe(NewDisk(), EmptyVersion(), {}, 0)
  {
    var v: Version := EmptyVersion();
    var m := NewDisk().manifest;
    var e := m[0];
    assert m == [] + [e];
    assert AllFiles(v) == {} && VersionEntries(v) == {};
    assert ManifestFiles(m) == {};
    assert EntriesFrom(map[], 0) == {};
    forall l | 0 <= l < NUM_LEVELS ensures AddedBy(LevelEdits(m, l)) == {} {
      LevelEditsSnoc([], e, l);
      assert NewAt(e, l) == {};
    }
    InitIsConsistent(State(Store({}, {}, v), 0, [], 2, {}, 0));
    hide LevelEdits, AddedBy, ManifestFiles, AllFiles, VersionEntries;
  }

  // ----- Runs with crashes -----

  /** How far opening has come, if it has been started. */
  datatype Stage = Down | Reading(p: Progress) | LogCreated(p: Progress)

  /** An engine that runs, or a disk that is being opened.  `version` is what the disk's manifest stands
      for; `history` and `floor` say what its readers are owed. */
  datatype System =
    | Up(node: Node)
    | Starting(disk: Disk, version: Version, history: set<Entry>, floor: nat, stage: Stage)

  ghost function DiskOf(s: System): Disk {
    if s.Up? then s.node.disk else s.disk
  }

  ghost function VersionOf(s: System): Version {
    if s.Up? then s.node.state.store.version else s.version
  }

  ghost predicate Sound(s: System) {
    match s
    case Up(n) => Durable(n)
    case Starting(disk, v, history, floor, stage) =>
      && Safe(disk, v, history, floor)
      && match stage
         case Down => true
         case Reading(p) => OnTheWay(disk, p)
         case LogCreated(p) => ReadyToSwitch(disk, v, p)
  }

  /** Every batch that is owed to readers. */
  ghost function Owed(s: System): set<Entry>
    requires Sound(s)
  {
    if s.Up? then Logged(s.node) else s.history
  }

  datatype Event =
    | LogWriteEvent(ops: seq<Op>)
    | ApplyWriteEvent
    | SwitchEvent
    | WriteTableEvent(f: TableFile)
    | FlushEvent(level: nat, f: TableFile, edit: VersionEdit)
    | EmptyFlushEvent(edit: VersionEdit)
    | CompactionEvent(c: Inputs, input: seq<Entry>, snapshot: SequenceNumber, outs: seq<TableFile>, edit: VersionEdit)
    | MoveEvent(c: Inputs, edit: VersionEdit)
    | DeleteEvent
    | SnapshotEvent
    | CrashEvent
    | StartEvent
    | BeginLogEvent
    | ReadRecordEvent
    | WriteRecoveredEvent(f: TableFile)
    | UseNumberEvent
    | EndLogEvent
    | CreateLogEvent
    | SwitchManifestEvent(o: Opened)

  /** Steps of a running engine. */
  ghost predicate NodeStep(n: Node, t: Node, event: Event) {
    match event
    case LogWriteEvent(ops) => LogWrite(n, t, ops)
    case ApplyWriteEvent => ApplyWrite(n, t)
    case SwitchEvent => SwitchLog(n, t)
    case WriteTableEvent(f) => WriteTable(n, t, f)
    case FlushEvent(level, f, edit) => InstallFlush(n, t, level, f, edit)
    case EmptyFlushEvent(edit) => InstallEmptyFlush(n, t, edit)
    case CompactionEvent(c, input, snapshot, outs, edit) => InstallCompaction(n, t, c, input, snapshot, outs, edit)
    case MoveEvent(c, edit) => InstallMove(n, t, c, edit)
    case DeleteEvent => DeleteObsoleteFiles(n, t)
    case SnapshotEvent => SnapshotStep(n, t)
    case _ => false
  }

  /** Steps of an engine that is being opened, up to the new manifest. */
  ghost predicate ReadingStep(disk: Disk, p: Progress, d: Disk, q: Progress, event: Event) {
    match event
    case BeginLogEvent => d == disk && BeginLog(disk, p, q)
    case ReadRecordEvent => d == disk && ReadRecord(disk, p, q)
    case WriteRecoveredEvent(f) => WriteRecovered(disk, p, d, q, f)
    case UseNumberEvent => d == disk && UseNumber(p, q)
    case EndLogEvent => d == disk && EndLog(disk, p, q)
    case _ => false
  }

  ghost predicate Next(s: System, t: System, event: Event) {
    match event
    case CrashEvent =>
      if s.Up? then
        && RoomFor(s.node.state, s.node.pending)
        && t == Starting(s.node.disk, s.node.state.store.version, Logged(s.node), s.node.state.floor, Down)
      else
        t == s.(stage := Down)
    case StartEvent => s.Starting? && s.stage.Down? && t == s.(stage := Reading(Nothing(s.disk)))
    case CreateLogEvent =>
      && s.Starting? && s.stage.Reading? && t.Starting?
      && CreateLog(s.disk, s.stage.p, t.disk) && t == s.(disk := t.disk, stage := LogCreated(s.stage.p))
    case SwitchManifestEvent(o) =>
      && s.Starting? && s.stage.LogCreated?
      && SwitchManifest(s.disk, s.version, s.stage.p, o) && t == Up(OpenedNode(o, s.history, s.floor))
    case _ =>
      || (s.Up? && t.Up? && NodeStep(s.node, t.node, event))
      || (s.Starting? && s.stage.Reading? && t.Starting? && t.stage.Reading?
          && ReadingStep(s.disk, s.stage.p, t.disk, t.stage.p, event) && t == s.(disk := t.disk, stage := t.stage))
  }

  /** What can be asked about a step before it is taken. */
  ghost predicate HarmlessStep(s: System, event: Event) {
    s.Up? ==>
      match event
      case CompactionEvent(c, input, snapshot, _, _) => c.level < NUM_LEVELS && Harmless(s.node.state.store.version, c, input, snapshot)
      case MoveEvent(c, _) => c.level + 1 < NUM_LEVELS && NoneGoesOn(s.node.state.store.version, c)
      case _ => true
  }

  /** Entries that an event logs. */
  ghost function LoggedBy(s: System, event: Event): set<Entry> {
    if s.Up? && event.LogWriteEvent? && RoomFor(s.node.state, event.ops) then ToSet(NextEntries(s.node.state, event.ops)) else {}
  }

  lemma DurableHasRoom(n: Node)
    requires Durable(n)
    ensures RoomFor(n.state, n.pending)
  {
  }

  lemma LogWriteHasRoom(n: Node, t: Node, ops: seq<Op>)
    requires LogWrite(n, t, ops)
    ensures RoomFor(n.state, ops)
  {
  }

  lemma NodeStepKeepsDurable(n: Node, t: Node, event: Event)
    requires Durable(n) && NodeStep(n, t, event) && HarmlessStep(Up(n), event)
    ensures Durable(t) && Logged(t) == Logged(n) + LoggedBy(Up(n), event)
  {
    hide Durable, Logged, LogWrite, ApplyWrite, SwitchLog, WriteTable, InstallFlush, InstallEmptyFlush, InstallCompaction,
      InstallMove, DeleteObsoleteFiles, SnapshotStep, Harmless, NoneGoesOn;
    DurableHasRoom(n);
    match event
    case LogWriteEvent(ops) =>
      LogWriteHasRoom(n, t, ops);
      LogWriteKeepsDurable(n, t, ops);
    case ApplyWriteEvent => ApplyWriteKeepsDurable(n, t);
    case SwitchEvent => SwitchLogKeepsDurable(n, t);
    case WriteTableEvent(f) => WriteTableKeepsDurable(n, t, f);
    case FlushEvent(level, f, edit) => InstallFlushKeepsDurable(n, t, level, f, edit);
    case EmptyFlushEvent(edit) => InstallEmptyFlushKeepsDurable(n, t, edit);
    case CompactionEvent(c, input, snapshot, outs, edit) => InstallCompactionKeepsDurable(n, t, c, input, snapshot, outs, edit);
    case MoveEvent(c, edit) => InstallMoveKeepsDurable(n, t, c, edit);
    case DeleteEvent => DeleteKeepsDurable(n, t);
    case SnapshotEvent => SnapshotStepKeepsDurable(n, t);
  }

  lemma ReadingStepIsSafe(disk: Disk, p: Progress, d: Disk, q: Progress, event: Event, v: Version, history: set<Entry>, floor: nat)
    requires Safe(disk, v, history, floor) && OnTheWay(disk, p) && ReadingStep(disk, p, d, q, event)
    ensures Safe(d, v, history, floor) && OnTheWay(d, q)
  {
    assert LogsInOrder(disk.logs, RecordedLog(disk.manifest));
    hide Safe, OnTheWay, LogsInOrder;
    match event
    case BeginLogEvent => BeginLogKeeps(disk, p, q);
    case ReadRecordEvent => ReadRecordKeeps(disk, p, q);
    case WriteRecoveredEvent(f) =>
      WriteRecoveredKeeps(disk, p, d, q, f);
      WriteRecoveredIsSafe(disk, p, d, q, f, v, history, floor);
    case UseNumberEvent => UseNumberKeeps(disk, p, q);
    case EndLogEvent => EndLogKeeps(disk, p, q);
  }

  /** A crash of a running engine leaves a disk from which all logged batches can be recovered. */
  lemma CrashIsSound(n: Node)
    requires Durable(n)
    ensures Sound(Starting(n.disk, n.state.store.version, Logged(n), n.state.floor, Down))
  {
    DurableIsRecoverable(n);
  }

  lemma SwitchManifestIsDurable(disk: Disk, v: Version, history: set<Entry>, floor: nat, p: Progress, o: Opened)
    requires Safe(disk, v, history, floor) && ReadyToSwitch(disk, v, p) && SwitchManifest(disk, v, p, o)
    ensures Durable(OpenedNode(o, history, floor)) && Logged(OpenedNode(o, history, floor)) == history
  {
    BeforeIsSafe(disk, v, p, history, floor);
    SwitchedIsReopened(disk, v, p, o);
    hide Recoverable, Reopened, ReadyToSwitch, SwitchManifest, AllPresent, Faithful, Durable, Logged;
    OpenIsDurable(disk.(logs := disk.logs - {p.next}), v, o, p.files, history, floor);
  }

  lemma StartingStepKeepsSound(s: System, t: System, event: Event)
    requires s.Starting? && Sound(s) && Next(s, t, event)
    ensures Sound(t) && Owed(t) == Owed(s)
  {
    hide Safe, OnTheWay, ReadyToSwitch, CreateLog, SwitchManifest, Durable, ReadingStep, NodeStep, Logged;
    match event
    case CrashEvent =>
    case StartEvent => StartIsOnTheWay(s.disk);
    case CreateLogEvent =>
      CreateLogIsSafe(s.disk, s.stage.p, t.disk, s.version, s.history, s.floor);
      SafeIsRecoverable(s.disk, s.version, s.history, s.floor);
      CreatedIsReady(s.disk, s.stage.p, t.disk, s.version);
    case SwitchManifestEvent(o) => SwitchManifestIsDurable(s.disk, s.version, s.history, s.floor, s.stage.p, o);
    case _ => ReadingStepIsSafe(s.disk, s.stage.p, t.disk, t.stage.p, event, s.version, s.history, s.floor);
  }

  lemma SafeIsRecoverable(disk: Disk, v: Version, history: set<Entry>, floor: nat)
    requires Safe(disk, v, history, floor)
    ensures Recoverable(disk, v) && AllPresent(v, disk.tables)
  {
  }

  lemma NextKeepsSound(s: System, t: System, event: Event)
    requires Sound(s) && Next(s, t, event) && HarmlessStep(s, event)
    ensures Sound(t) && Owed(t) == Owed(s) + LoggedBy(s, event)
  {
    hide Safe, OnTheWay, ReadyToSwitch, CreateLog, SwitchManifest, Durable, ReadingStep, NodeStep, HarmlessStep;
    if s.Starting? {
      StartingStepKeepsSound(s, t, event);
    } else if event.CrashEvent? {
      CrashIsSound(s.node);
    } else {
      NodeStepKeepsDurable(s.node, t.node, event);
    }
  }

  ghost predicate IsRun(systems: seq<System>, events: seq<Event>) {
    && |systems| == |events| + 1
    && systems[0] == Starting(NewDisk(), EmptyVersion(), {}, 0, Down)
    && (forall i :: 0 <= i < |events| ==> Next(systems[i], systems[i + 1], events[i]))
    && forall i :: 0 <= i < |events| ==> HarmlessStep(systems[i], events[i])
  }

  /** All batches logged in the first `n` events of a run, crashes or not. */
  ghost function EverLogged(systems: seq<System>, events: seq<Event>, n: nat): set<Entry>
    requires |systems| == |events| + 1 && n <= |events|
  {
    if n == 0 then {} else EverLogged(systems, events, n - 1) + LoggedBy(systems[n - 1], events[n - 1])
  }

  lemma {:induction false} RunKeepsSound(systems: seq<System>, events: seq<Event>, n: nat)
    requires IsRun(systems, events) && n <= |events|
    ensures Sound(systems[n]) && Owed(systems[n]) == EverLogged(systems, events, n)
  {
    if n == 0 {
      hide Next, HarmlessStep;
      NewDiskIsRecoverable();
      hide Safe;
    } else {
      assert |systems| == |events| + 1 && Next(systems[n - 1], systems[n], events[n - 1]) && HarmlessStep(systems[n - 1], events[n - 1]);
      assert EverLogged(systems, events, n) == EverLogged(systems, events, n - 1) + LoggedBy(systems[n - 1], events[n - 1]);
      hide *;
      RunKeepsSound(systems, events, n - 1);
      NextKeepsSound(systems[n - 1], systems[n], events[n - 1]);
    }
  }

  /** The map that all batches logged in the first `n` events make, one after the other. */
  ghost function MapLogged(events: seq<Event>, n: nat): PlainMaps.Table
    requires n <= |events|
  {
    if n == 0 then map[]
    else if events[n - 1].LogWriteEvent? then PlainMaps.ApplyAll(MapLogged(events, n - 1), events[n - 1].ops)
    else MapLogged(events, n - 1)
  }

  /** Logging a batch applies it to what is owed to readers. */
  lemma LogWriteShows(s: System, t: System, ops: seq<Op>, m: PlainMaps.Table)
    requires Sound(s) && Next(s, t, LogWriteEvent(ops)) && PlainMaps.Shows(Owed(s), m)
    ensures PlainMaps.Shows(Owed(s) + LoggedBy(s, LogWriteEvent(ops)), PlainMaps.ApplyAll(m, ops))
  {
    var n := s.node;
    assert s.Up? && LogWrite(n, t.node, ops);
    assert ToSet(NextEntries(n.state, [])) == {};
    assert Owed(s) == n.state.history && Consistent(n.state);
    assert Distinct(n.state.history) && UpTo(n.state.history, n.state.lastSequence);
    assert LoggedBy(s, LogWriteEvent(ops)) == ToSet(BatchEntries(ops, n.state.lastSequence + 1));
    hide *;
    PlainMaps.BatchShows(n.state.history, m, ops, n.state.lastSequence + 1);
  }

  lemma {:induction false} RunShowsMap(systems: seq<System>, events: seq<Event>, n: nat)
    requires IsRun(systems, events) && n <= |events|
    ensures Sound(systems[n]) && PlainMaps.Shows(Owed(systems[n]), MapLogged(events, n))
  {
    hide Sound, Owed, Next, HarmlessStep, PlainMaps.Shows, PlainMaps.ApplyAll;
    RunKeepsSound(systems, events, n);
    if n == 0 {
      PlainMaps.NothingShows();
    } else {
      RunShowsMap(systems, events, n - 1);
      NextKeepsSound(systems[n - 1], systems[n], events[n - 1]);
      assert Owed(systems[n - 1]) + {} == Owed(systems[n - 1]);
      if events[n - 1].LogWriteEvent? {
        LogWriteShows(systems[n - 1], systems[n], events[n - 1].ops, MapLogged(events, n - 1));
      }
    }
  }

  lemma SoundIsSafe(s: System)
    requires Sound(s)
    ensures exists floor :: Safe(DiskOf(s), VersionOf(s), Owed(s), floor)
  {
    if s.Up? {
      DurableIsRecoverable(s.node);
      assert Safe(DiskOf(s), VersionOf(s), Owed(s), s.node.state.floor);
    } else {
      assert Safe(DiskOf(s), VersionOf(s), Owed(s), s.floor);
    }
  }

  lemma OpenedReads(systems: seq<System>, events: seq<Event>, n: nat, o: Opened, files: seq<TableFile>, u: UserKey, l: Lookup)
    requires IsRun(systems, events) && n <= |events|
    requires Reopened(DiskOf(systems[n]), VersionOf(systems[n]), o, files)
    requires ReadsAs(Store({}, {}, o.version), u, o.lastSequence, l)
    ensures Recoverable(DiskOf(systems[n]), VersionOf(systems[n]))
    ensures AllPresent(VersionOf(systems[n]), DiskOf(systems[n]).tables)
    ensures Answer(l) == Visible(EverLogged(systems, events, n), u, o.lastSequence)
    ensures UpTo(EverLogged(systems, events, n), o.lastSequence)
  {
    var s := systems[n];
    RunKeepsSound(systems, events, n);
    SoundIsSafe(s);
    var floor :| Safe(DiskOf(s), VersionOf(s), Owed(s), floor);
    hide Recoverable, AllPresent, Faithful, Reopened, Sound, Owed, IsRun, Logged;
    OpenIsDurable(DiskOf(s), VersionOf(s), o, files, Owed(s), floor);
    ReadIsRight(OpenedNode(o, Owed(s), floor).state, u, o.lastSequence, l);
  }

  /** At every crash point of every run, while the engine works as much as while it is being opened,
      the disk alone gives back every batch ever logged: opening it reports no missing file, and reads
      of the latest data afterwards are reads of that history, and so of the map that the batches make. */
  lemma NoLoggedWriteIsLost(systems: seq<System>, events: seq<Event>, n: nat, o: Opened, files: seq<TableFile>, u: UserKey, l: Lookup)
    requires IsRun(systems, events) && n <= |events|
    requires Reopened(DiskOf(systems[n]), VersionOf(systems[n]), o, files)
    requires ReadsAs(Store({}, {}, o.version), u, o.lastSequence, l)
    ensures Recoverable(DiskOf(systems[n]), VersionOf(systems[n]))
    ensures AllPresent(VersionOf(systems[n]), DiskOf(systems[n]).tables)
    ensures Answer(l) == Visible(EverLogged(systems, events, n), u, o.lastSequence)
    ensures UpTo(EverLogged(systems, events, n), o.lastSequence)
    ensures Answer(l) == PlainMaps.At(MapLogged(events, n), u)
  {
    assert |systems| == |events| + 1;
    hide *;
    OpenedReads(systems, events, n, o, files, u, l);
    RunKeepsSound(systems, events, n);
    RunShowsMap(systems, events, n);
    PlainMaps.ShownTo(Owed(systems[n]), MapLogged(events, n), u, o.lastSequence);
  }
}
