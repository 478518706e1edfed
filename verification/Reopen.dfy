/** Opening a database: replay of manifest and logs, and the crash-safety invariant over all runs. */
module Reopen {
  import opened Entries
  import opened Versions
  import opened VersionBuilder
  import opened CompactionInputs
  import opened Compactions
  import opened LevelInvariant
  import opened Engine
  import opened DB
  import opened Recovery

  // ----- Reading all logs -----

  lemma {:induction false} LeastExists(s: set<nat>) returns (n: nat)
    requires s != {}
    ensures n in s && forall m :: m in s ==> n <= m
  {
    n :| n in s;
    var rest := s - {n};
    assert forall m :: m in s ==> m == n || m in rest;
    if rest != {} {
      var k := LeastExists(rest);
      if k < n {
        n := k;
      }
    }
  }

  method Least(s: set<nat>) returns (n: nat)
    requires s != {}
    ensures n in s && forall m :: m in s ==> n <= m
  {
    ghost var least := LeastExists(s);
    n :| n in s && forall m :: m in s ==> n <= m;
  }

  ghost function EntriesIn(logs: map<nat, seq<seq<Entry>>>, numbers: set<nat>): set<Entry> {
    set n, e | n in numbers && n in logs && e in RecordEntries(logs[n]) :: e
  }

  lemma EntriesInSplit(logs: map<nat, seq<seq<Entry>>>, numbers: set<nat>, n: nat)
    requires n in logs
    ensures EntriesIn(logs, numbers + {n}) == EntriesIn(logs, numbers) + RecordEntries(logs[n])
  {
  }

  /** The logs in `done` have been turned into files, and `max` is at least their last number. */
  ghost predicate HaveRead(logs: map<nat, seq<seq<Entry>>>, done: set<nat>, files: seq<TableFile>, first: nat, next: nat,
                           start: SequenceNumber, max: SequenceNumber) {
    && RecoveredFiles(files, first, next)
    && FilesHold(files) == EntriesIn(logs, done)
    && (forall n :: n in done ==> n < next)
    && start <= max && UpTo(EntriesIn(logs, done), max)
    && (max == start || exists e :: e in EntriesIn(logs, done) && e.k.seqno == max)
  }

  method RecoverNext(logs: map<nat, seq<seq<Entry>>>, ghost minLog: nat, ghost done: set<nat>, n: nat,
                     files: seq<TableFile>, ghost first: nat, next: nat, ghost start: SequenceNumber, max: SequenceNumber,
                     full: seq<Entry> -> bool, sizeOf: seq<Entry> -> nat)
    returns (files': seq<TableFile>, next': nat, max': SequenceNumber)
    requires LogsInOrder(logs, minLog) && n in logs && minLog <= n
    requires forall m :: m in done ==> m in logs && minLog <= m < n
    requires HaveRead(logs, done, files, first, next, start, max)
    ensures HaveRead(logs, done + {n}, files', first, next', start, max')
  {
    DoneBefore(logs, minLog, done, n);
    EntriesInSplit(logs, done, n);
    hide RecoveredFiles, FilesHold, EntriesIn, RecordEntries, RecordsInOrder, AllBefore;
    files', next', max' := RecoverLogFile(logs[n], files, first, next, max, full, sizeOf);
    if next' <= n {
      next' := n + 1;
    }
  }

  /** Reads every log numbered `minLog` or above, lowest number first, and marks their numbers used. */
  method RecoverLogs(logs: map<nat, seq<seq<Entry>>>, minLog: nat, firstFile: nat, maxSequence: SequenceNumber,
                     full: seq<Entry> -> bool, sizeOf: seq<Entry> -> nat)
    returns (files: seq<TableFile>, next: nat, max: SequenceNumber)
    requires LogsInOrder(logs, minLog)
    ensures LogsRecovered(logs, minLog, files, firstFile, next, maxSequence, max)
  {
    hide HaveRead, LogsRecovered, LogsInOrder;
    files, next, max := [], firstFile, maxSequence;
    var remaining := LogNumbers(logs, minLog);
    ghost var done: set<nat> := {};
    NothingRead(logs, firstFile, maxSequence);
    while remaining != {}
      invariant done + remaining == LogNumbers(logs, minLog)
      invariant forall m, n :: m in done && n in remaining ==> m < n
      invariant HaveRead(logs, done, files, firstFile, next, maxSequence, max)
      decreases remaining
    {
      var n := Least(remaining);
      assert n in done + remaining;
      assert forall m :: m in done ==> m in done + remaining;
      assert forall m, k :: m in done + {n} && k in remaining - {n} ==> m < k;
      files, next, max := RecoverNext(logs, minLog, done, n, files, firstFile, next, maxSequence, max, full, sizeOf);
      done, remaining := done + {n}, remaining - {n};
    }
    assert done == LogNumbers(logs, minLog);
    AllRead(logs, minLog, files, firstFile, next, maxSequence, max);
  }

  /** What `RecoverLogs` promises. */
  ghost predicate LogsRecovered(logs: map<nat, seq<seq<Entry>>>, minLog: nat, files: seq<TableFile>, first: nat, next: nat,
                                start: SequenceNumber, max: SequenceNumber) {
    && RecoveredFiles(files, first, next)
    && FilesHold(files) == EntriesFrom(logs, minLog)
    && (forall n :: n in logs && minLog <= n ==> n < next)
    && start <= max && UpTo(EntriesFrom(logs, minLog), max)
    && (max == start || exists e :: e in EntriesFrom(logs, minLog) && e.k.seqno == max)
  }

  lemma AllRead(logs: map<nat, seq<seq<Entry>>>, minLog: nat, files: seq<TableFile>, first: nat, next: nat,
                start: SequenceNumber, max: SequenceNumber)
    requires HaveRead(logs, LogNumbers(logs, minLog), files, first, next, start, max)
    ensures LogsRecovered(logs, minLog, files, first, next, start, max)
  {
    assert forall n :: n in logs && minLog <= n ==> n in LogNumbers(logs, minLog);
    assert EntriesIn(logs, LogNumbers(logs, minLog)) == EntriesFrom(logs, minLog);
  }

  function LogNumbers(logs: map<nat, seq<seq<Entry>>>, minLog: nat): set<nat> {
    set n | n in logs && minLog <= n
  }

  lemma NothingRead(logs: map<nat, seq<seq<Entry>>>, first: nat, start: SequenceNumber)
    ensures HaveRead(logs, {}, [], first, first, start, start)
  {
    assert FilesHold([]) == {} && EntriesIn(logs, {}) == {};
  }

  lemma DoneBefore(logs: map<nat, seq<seq<Entry>>>, minLog: nat, done: set<nat>, n: nat)
    requires LogsInOrder(logs, minLog) && n in logs && minLog <= n
    requires forall m :: m in done ==> m in logs && minLog <= m < n
    ensures AllBefore(EntriesIn(logs, done), RecordEntries(logs[n]))
  {
    forall e, o | e in EntriesIn(logs, done) && o in RecordEntries(logs[n]) ensures e.k.seqno < o.k.seqno {
      var m :| m in done && m in logs && e in RecordEntries(logs[m]);
      assert AllBefore(RecordEntries(logs[m]), RecordEntries(logs[n]));
    }
  }

  // ----- Installing what was recovered -----

  lemma LaterFileIsNewer(files: seq<TableFile>, f: TableFile, g: TableFile)
    requires FilesInOrder(files) && f in files && g in files
    ensures f.number > g.number ==> NewerFile(f, g)
    ensures f.number == g.number ==> f == g
  {
    var i :| 0 <= i < |files| && files[i] == f;
    var j :| 0 <= j < |files| && files[j] == g;
    if j < i {
      assert AllBefore(ToSet(files[j].entries), ToSet(files[i].entries));
    }
  }

  ghost predicate AddedAtLevel0(v: Version, w: Version, files: seq<TableFile>) {
    forall l :: 0 <= l < NUM_LEVELS ==>
      Ordered(w[l]) && forall g :: g in w[l] <==> g in v[l] || (l == 0 && g in files)
  }

  lemma RecoveredIdentified(v: Version, w: Version, files: seq<TableFile>)
    requires Identified(AllFiles(v)) && FilesInOrder(files) && AddedAtLevel0(v, w, files)
    requires forall f, g :: f in files && g in AllFiles(v) ==> g.number < f.number
    ensures Identified(AllFiles(w))
  {
    hide NewerFile;
    forall f, g | f in AllFiles(w) && g in AllFiles(w) && f.number == g.number ensures f == g {
      assert f in files || f in AllFiles(v);
      assert g in files || g in AllFiles(v);
      if f in files && g in files {
        LaterFileIsNewer(files, f, g);
      }
    }
  }

  /** Files recovered from logs go to level 0 in one edit. */
  lemma RecoveredFilesKeepShape(v: Version, w: Version, files: seq<TableFile>)
    requires WellShaped(v) && FilesInOrder(files) && AddedAtLevel0(v, w, files)
    requires forall f, g :: f in files && g in AllFiles(v) ==> g.number < f.number && NewerFile(f, g)
    ensures WellShaped(w)
  {
    hide NewerFile;
    RecoveredIdentified(v, w, files);
    hide FilesInOrder, Identified;
    forall f, g | f in ToSet(w[0]) && g in ToSet(w[0]) && f.number > g.number ensures NewerFile(f, g) {
      RecoveredAge(v, files, f, g);
    }
    forall l | 1 <= l < NUM_LEVELS ensures InKeyOrder(ToSet(w[l])) {
      assert ToSet(w[l]) == ToSet(v[l]);
    }
    forall i, j, f, g | 0 <= i < j < NUM_LEVELS && f in w[i] && g in w[j] ensures NewerFile(f, g) {
      assert g in v[j] && g in AllFiles(v);
    }
  }

  lemma RecoveredAge(v: Version, files: seq<TableFile>, f: TableFile, g: TableFile)
    requires WellShaped(v) && FilesInOrder(files)
    requires forall f, g :: f in files && g in AllFiles(v) ==> g.number < f.number && NewerFile(f, g)
    requires f in v[0] || f in files
    requires g in v[0] || g in files
    ensures f.number > g.number ==> NewerFile(f, g)
  {
    if f in files && g in files {
      LaterFileIsNewer(files, f, g);
    } else if f in v[0] && g in v[0] {
      assert f in ToSet(v[0]) && g in ToSet(v[0]);
    } else if f in v[0] {
      assert f in AllFiles(v) && f.number < g.number;
    } else {
      assert g in AllFiles(v);
    }
  }

  lemma RecoveredEntries(v: Version, w: Version, files: seq<TableFile>)
    requires AddedAtLevel0(v, w, files)
    ensures VersionEntries(w) == VersionEntries(v) + FilesHold(files)
  {
    forall e | e in VersionEntries(w) ensures e in VersionEntries(v) + FilesHold(files) {
      var l :| 0 <= l < NUM_LEVELS && e in LevelEntries(w[l]);
      var g :| g in w[l] && e in g.entries;
      if g in v[l] {
        assert e in LevelEntries(v[l]);
      }
    }
    forall e | e in VersionEntries(v) ensures e in VersionEntries(w) {
      var l :| 0 <= l < NUM_LEVELS && e in LevelEntries(v[l]);
      var g :| g in v[l] && e in g.entries;
      assert g in w[l] && e in LevelEntries(w[l]);
    }
    forall e | e in FilesHold(files) ensures e in VersionEntries(w) {
      var g :| g in files && e in g.entries;
      assert g in w[0] && e in LevelEntries(w[0]);
    }
  }

  /** The record that opens a new manifest: all files of the version, nothing else. */
  function SnapshotEdit(v: Version): VersionEdit {
    VersionEdit(None, None, None, [], FilesFrom(v, 0))
  }

  function FilesFrom(v: Version, level: nat): seq<(nat, TableFile)>
    decreases NUM_LEVELS - level
  {
    if level >= NUM_LEVELS then [] else AdditionsOf(level, v[level]) + FilesFrom(v, level + 1)
  }

  lemma {:induction false} FilesFromMembers(v: Version, level: nat)
    ensures forall p :: p in FilesFrom(v, level) <==> level <= p.0 < NUM_LEVELS && p.1 in v[p.0]
    decreases NUM_LEVELS - level
  {
    if level < NUM_LEVELS {
      FilesFromMembers(v, level + 1);
      var a := AdditionsOf(level, v[level]);
      forall p ensures p in a <==> p.0 == level && p.1 in v[level] {
        if p.0 == level && p.1 in v[level] {
          var i :| 0 <= i < |v[level]| && v[level][i] == p.1;
          assert a[i] == p;
        }
      }
    }
  }

  lemma SnapshotAtLevel(v: Version, l: nat)
    requires l < NUM_LEVELS
    ensures NewAt(SnapshotEdit(v), l) == ToSet(v[l])
    ensures AddedBy(LevelEdits([SnapshotEdit(v)], l)) == ToSet(v[l])
    ensures DeletedBy(LevelEdits([SnapshotEdit(v)], l)) == {}
  {
    var e := SnapshotEdit(v);
    FilesFromMembers(v, 0);
    assert [] + [e] == [e];
    LevelEditsSnoc([], e, l);
    forall f ensures f in NewAt(e, l) <==> f in v[l] {
      assert (l, f) in e.newFiles <==> f in v[l];
    }
    assert DeletedAt(e, l) == {};
  }

  lemma SnapshotEditFiles(v: Version)
    ensures ManifestFiles([SnapshotEdit(v)]) == AllFiles(v)
    ensures LevelsExist(SnapshotEdit(v))
  {
    FilesFromMembers(v, 0);
    SnapshotFilesListed(v, SnapshotEdit(v));
  }

  lemma SnapshotFilesListed(v: Version, e: VersionEdit)
    requires forall p :: p in e.newFiles <==> 0 <= p.0 < NUM_LEVELS && p.1 in v[p.0]
    requires e.deletedFiles == []
    ensures ManifestFiles([e]) == AllFiles(v)
    ensures LevelsExist(e)
  {
    forall f | f in AllFiles(v) ensures f in ManifestFiles([e]) {
      var l :| 0 <= l < NUM_LEVELS && f in v[l];
      assert (l, f) in [e][0].newFiles;
    }
    forall f | f in ManifestFiles([e]) ensures f in AllFiles(v) {
      var i, p :| 0 <= i < |[e]| && p in [e][i].newFiles && p.1 == f;
      assert p in e.newFiles;
    }
    forall i | 0 <= i < |e.newFiles| ensures e.newFiles[i].0 < NUM_LEVELS {
      assert e.newFiles[i] in e.newFiles;
    }
  }

  /** A snapshot record alone stands for the version it was taken of. */
  lemma SnapshotEditReplays(v: Version)
    requires forall l :: 0 <= l < NUM_LEVELS ==> Ordered(v[l])
    ensures IsReplay([SnapshotEdit(v)], v)
  {
    forall l | 0 <= l < NUM_LEVELS
      ensures forall f :: f in v[l] <==>
                f in AddedBy(LevelEdits([SnapshotEdit(v)], l)) && f.number !in DeletedBy(LevelEdits([SnapshotEdit(v)], l))
    {
      SnapshotAtLevel(v, l);
    }
  }

  // ----- Opening -----

  /** Everything the engine relies on when it opens what a crash has left.  `v` is the version the
      manifest stands for. */
  ghost predicate Recoverable(disk: Disk, v: Version) {
    var from := RecordedLog(disk.manifest);
    && WellFormedManifest(disk.manifest) && IsReplay(disk.manifest, v)
    && WellShaped(v)
    && LogsInOrder(disk.logs, from)
    && Newer(EntriesFrom(disk.logs, from), VersionEntries(v))
    && UpTo(EntriesFrom(disk.logs, from), MAX_SEQUENCE - 1) && RecordedSequence(disk.manifest) < MAX_SEQUENCE
    && (forall f :: f in AllFiles(v) ==> f.number < RecordedNextFile(disk.manifest))
    && RecordedLog(disk.manifest) < RecordedNextFile(disk.manifest)
  }

  ghost predicate AllPresent(v: Version, tables: map<nat, TableFile>) {
    forall f :: f in AllFiles(v) ==> f.number in tables && tables[f.number] == f
  }

  datatype Opened = Opened(version: Version, lastSequence: SequenceNumber, nextFile: nat, curLog: nat, disk: Disk)

  function RecoveryEdit(curLog: nat, nextFile: nat, lastSequence: SequenceNumber, files: seq<TableFile>): VersionEdit {
    VersionEdit(Some(curLog), Some(nextFile), Some(lastSequence), [], AdditionsOf(0, files))
  }

  /** What opening makes of a disk: the logs' entries become level-0 files, a new log is started,
      and a new manifest records both. */
  ghost predicate Reopened(disk: Disk, v: Version, r: Opened, files: seq<TableFile>) {
    var from := RecordedLog(disk.manifest);
    && LogsRecovered(disk.logs, from, files, RecordedNextFile(disk.manifest) + 1, r.curLog,
                     RecordedSequence(disk.manifest), r.lastSequence)
    && r.nextFile == r.curLog + 1 && r.lastSequence < MAX_SEQUENCE
    && Installs(v, RecoveryEdit(r.curLog, r.nextFile, r.lastSequence, files), r.version)
    && r.disk.manifest == [SnapshotEdit(v), RecoveryEdit(r.curLog, r.nextFile, r.lastSequence, files)]
    && r.disk.logs == disk.logs[r.curLog := []]
    && TablesWritten(disk.tables, files, r.disk.tables)
  }

  ghost predicate TablesWritten(tables: map<nat, TableFile>, files: seq<TableFile>, r: map<nat, TableFile>) {
    && (forall f :: f in files ==> f.number in r && r[f.number] == f)
    && (forall n :: n in tables && (forall f :: f in files ==> f.number != n) ==> n in r && r[n] == tables[n])
  }

  lemma RecoveryEditAtLevel(curLog: nat, nextFile: nat, lastSequence: SequenceNumber, files: seq<TableFile>)
    ensures var e := RecoveryEdit(curLog, nextFile, lastSequence, files);
            && LevelsExist(e)
            && forall l :: NewAt(e, l) == (if l == 0 then ToSet(files) else {}) && DeletedAt(e, l) == {}
  {
    var e := RecoveryEdit(curLog, nextFile, lastSequence, files);
    forall i | 0 <= i < |files| ensures (0, files[i]) in e.newFiles {
      assert e.newFiles[i] in e.newFiles;
    }
    forall p | p in e.newFiles ensures p.0 == 0 && p.1 in files {
      var i :| 0 <= i < |e.newFiles| && e.newFiles[i] == p;
    }
  }

  lemma RecoveryEditFresh(v: Version, curLog: nat, nextFile: nat, lastSequence: SequenceNumber, files: seq<TableFile>, first: nat)
    requires WellShaped(v) && RecoveredFiles(files, first, curLog)
    requires forall f :: f in AllFiles(v) ==> f.number < first
    ensures FreshAdditions(v, RecoveryEdit(curLog, nextFile, lastSequence, files))
  {
    var e := RecoveryEdit(curLog, nextFile, lastSequence, files);
    RecoveryEditAtLevel(curLog, nextFile, lastSequence, files);
    forall l | 0 <= l < NUM_LEVELS ensures Identified(ToSet(v[l]) + NewAt(e, l)) && ToSet(v[l]) !! NewAt(e, l) {
      assert forall f :: f in ToSet(v[l]) ==> f in AllFiles(v);
      forall f, g | f in files && g in files && f.number == g.number ensures f == g {
        LaterFileIsNewer(files, f, g);
      }
    }
  }

  method WriteTables(tables: map<nat, TableFile>, files: seq<TableFile>) returns (r: map<nat, TableFile>)
    requires FilesInOrder(files)
    ensures TablesWritten(tables, files, r)
  {
    r := tables;
    for i := 0 to |files|
      invariant forall j :: 0 <= j < i ==> files[j].number in r && r[files[j].number] == files[j]
      invariant forall n :: n in tables && (forall f :: f in files ==> f.number != n) ==> n in r && r[n] == tables[n]
    {
      r := r[files[i].number := files[i]];
    }
  }

  /** `VersionSet::Recover`'s check that no table named by the manifest is missing. */
  method FindMissing(v: Version, tables: map<nat, TableFile>) returns (missing: bool)
    ensures !missing <==> forall f :: f in AllFiles(v) ==> f.number in tables
  {
    for l := 0 to NUM_LEVELS
      invariant forall m, f :: 0 <= m < l && f in v[m] ==> f.number in tables
    {
      for i := 0 to |v[l]|
        invariant forall j :: 0 <= j < i ==> v[l][j].number in tables
      {
        if v[l][i].number !in tables {
          assert v[l][i] in v[l] && v[l][i] in AllFiles(v);
          return true;
        }
      }
    }
    missing := false;
  }

  /** Opens the database from its disk alone.  `None` reports that table files are missing. */
  method Open(disk: Disk, ghost v: Version, full: seq<Entry> -> bool, sizeOf: seq<Entry> -> nat) returns (r: Option<Opened>)
    requires Recoverable(disk, v)
    ensures r.Some? <==> forall f :: f in AllFiles(v) ==> f.number in disk.tables
    ensures r.Some? ==> exists files :: Reopened(disk, v, r.value, files)
  {
    var version := ReplayManifest(disk.manifest);
    ReplayIsUnique(disk.manifest, v, version);
    var missing := FindMissing(version, disk.tables);
    if missing {
      return None;
    }
    var o := Rebuild(disk, version, full, sizeOf);
    r := Some(o);
  }

  lemma RecoverableParts(disk: Disk, v: Version)
    requires Recoverable(disk, v)
    ensures LogsInOrder(disk.logs, RecordedLog(disk.manifest)) && WellShaped(v)
    ensures forall f :: f in AllFiles(v) ==> f.number < RecordedNextFile(disk.manifest)
  {
  }

  method Rebuild(disk: Disk, v: Version, full: seq<Entry> -> bool, sizeOf: seq<Entry> -> nat) returns (o: Opened)
    requires Recoverable(disk, v)
    ensures exists files :: Reopened(disk, v, o, files)
  {
    RecoverableParts(disk, v);
    hide Recoverable, LogsInOrder, WellShaped, Installs, RecoveryEdit, SnapshotEdit, TablesWritten, Reopened, RecordedLog, RecordedNextFile, RecordedSequence;
    var log, recorded, last := ReadNumbers(disk.manifest);
    var files, next, max := RecoverLogs(disk.logs, log, recorded + 1, last, full, sizeOf);
    var w, edit := InstallRecovered(v, files, recorded + 1, next, max);
    var tables := WriteTables(disk.tables, files);
    o := Opened(w, max, next + 1, next, Disk([SnapshotEdit(v), edit], disk.logs[next := []], tables));
    LastStaysBelowMax(disk, v, log, last, files, recorded + 1, next, max);
    RebuiltIsReopened(disk, v, log, recorded + 1, last, files, next, max, w, tables);
  }

  lemma RebuiltIsReopened(disk: Disk, v: Version, log: nat, first: nat, last: SequenceNumber, files: seq<TableFile>, next: nat,
                          max: SequenceNumber, w: Version, tables: map<nat, TableFile>)
    requires log == RecordedLog(disk.manifest) && first == RecordedNextFile(disk.manifest) + 1
    requires last == RecordedSequence(disk.manifest)
    requires LogsRecovered(disk.logs, log, files, first, next, last, max)
    requires max < MAX_SEQUENCE
    requires Installs(v, RecoveryEdit(next, next + 1, max, files), w)
    requires TablesWritten(disk.tables, files, tables)
    ensures var edit := RecoveryEdit(next, next + 1, max, files);
            Reopened(disk, v, Opened(w, max, next + 1, next, Disk([SnapshotEdit(v), edit], disk.logs[next := []], tables)), files)
  {
  }

  lemma LastStaysBelowMax(disk: Disk, v: Version, log: nat, last: SequenceNumber, files: seq<TableFile>, first: nat, next: nat,
                          max: SequenceNumber)
    requires Recoverable(disk, v) && log == RecordedLog(disk.manifest) && last == RecordedSequence(disk.manifest)
    requires LogsRecovered(disk.logs, log, files, first, next, last, max)
    ensures max < MAX_SEQUENCE
  {
  }

  method InstallRecovered(v: Version, files: seq<TableFile>, ghost firstFile: nat, curLog: nat, last: SequenceNumber)
    returns (w: Version, edit: VersionEdit)
    requires WellShaped(v) && RecoveredFiles(files, firstFile, curLog)
    requires forall f :: f in AllFiles(v) ==> f.number < firstFile
    ensures edit == RecoveryEdit(curLog, curLog + 1, last, files) && Installs(v, edit, w)
  {
    edit := RecoveryEdit(curLog, curLog + 1, last, files);
    RecoveryEditAtLevel(curLog, curLog + 1, last, files);
    RecoveryEditFresh(v, curLog, curLog + 1, last, files, firstFile);
    w := ApplyEdit(v, edit);
  }

  lemma ReplayIsUnique(m: seq<VersionEdit>, v: Version, w: Version)
    requires IsReplay(m, v) && IsReplay(m, w)
    ensures v == w
  {
    forall l | 0 <= l < NUM_LEVELS ensures v[l] == w[l] {
      assert ToSet(v[l]) == ToSet(w[l]);
      OrderedIsUnique(v[l], w[l]);
    }
  }

  /** Each number that a manifest record carries overrides the earlier ones. */
  method ReadNumbers(m: seq<VersionEdit>) returns (log: nat, next: nat, last: SequenceNumber)
    ensures log == RecordedLog(m) && next == RecordedNextFile(m) && last == RecordedSequence(m)
  {
    log, next, last := 0, 0, 0;
    for i := 0 to |m|
      invariant log == RecordedLog(m[..i]) && next == RecordedNextFile(m[..i]) && last == RecordedSequence(m[..i])
    {
      assert m[..i + 1][..i] == m[..i];
      if m[i].logNumber.Some? {
        log := m[i].logNumber.value;
      }
      if m[i].nextFileNumber.Some? {
        next := m[i].nextFileNumber.value;
      }
      if m[i].lastSequence.Some? {
        last := m[i].lastSequence.value;
      }
    }
    assert m[..|m|] == m;
  }
}
