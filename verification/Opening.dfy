/** Opening a database step by step: logs are read into memory, tables are written, a new log is
    created, and only then is the new manifest put in charge.  A crash may come after any step. */
module Opening {
  import opened Entries
  import opened Versions
  import opened VersionBuilder
  import opened LevelInvariant
  import opened Engine
  import opened DB
  import opened Recovery
  import opened Reopen

  /** What the manifest's version and the logs still needed hold together. */
  ghost function OnDisk(disk: Disk, v: Version): set<Entry> {
    VersionEntries(v) + EntriesFrom(disk.logs, RecordedLog(disk.manifest))
  }

  /** The disk tells readers at or above `floor` the same as the history does. */
  ghost predicate Faithful(disk: Disk, v: Version, history: set<Entry>, floor: nat) {
    && Distinct(history) && OnDisk(disk, v) <= history
    && Agree(OnDisk(disk, v), history, floor)
    && floor <= RecordedSequence(disk.manifest)
    && forall e :: e in history ==>
         e.k.seqno <= RecordedSequence(disk.manifest) || e in EntriesFrom(disk.logs, RecordedLog(disk.manifest))
  }

  /** Everything a crash must leave intact. */
  ghost predicate Safe(disk: Disk, v: Version, history: set<Entry>, floor: nat) {
    Recoverable(disk, v) && AllPresent(v, disk.tables) && Faithful(disk, v, history, floor)
  }

  /** How far the logs have been read.  `done` are read to the end; `read` records of the current one
      have been taken in; what is not yet in a file is in `mem`. */
  datatype Progress = Progress(
    done: set<nat>, current: Option<nat>, read: nat, mem: seq<Entry>,
    files: seq<TableFile>, next: nat, max: SequenceNumber)

  ghost function FirstNumber(disk: Disk): nat {
    RecordedNextFile(disk.manifest) + 1
  }

  ghost function Wanted(disk: Disk): set<nat> {
    LogNumbers(disk.logs, RecordedLog(disk.manifest))
  }

  /** Entries taken in so far. */
  ghost function TakenIn(disk: Disk, p: Progress): set<Entry>
    requires p.current.Some? ==> p.current.value in disk.logs && p.read <= |disk.logs[p.current.value]|
  {
    EntriesIn(disk.logs, p.done)
    + if p.current.Some? then RecordEntries(disk.logs[p.current.value][..p.read]) else {}
  }

  ghost predicate InPlace(disk: Disk, p: Progress) {
    && p.done <= Wanted(disk)
    && (forall m, n :: m in p.done && n in Wanted(disk) - p.done ==> m < n)
    && (p.current.None? ==> p.mem == [])
    && (p.current.Some? ==>
          && p.current.value in Wanted(disk) - p.done
          && (forall n :: n in Wanted(disk) - p.done ==> p.current.value <= n)
          && p.read <= |disk.logs[p.current.value]|)
  }

  /** Every entry taken in is in a table on disk or in memory, in order. */
  ghost predicate Stored(disk: Disk, p: Progress)
    requires InPlace(disk, p)
  {
    && RecoveredFiles(p.files, FirstNumber(disk), p.next)
    && Sorted(p.mem) && AllBefore(FilesHold(p.files), ToSet(p.mem))
    && FilesHold(p.files) + ToSet(p.mem) == TakenIn(disk, p)
    && (forall f :: f in p.files ==> f.number in disk.tables && disk.tables[f.number] == f)
  }

  ghost predicate Counted(disk: Disk, p: Progress)
    requires InPlace(disk, p)
  {
    && (forall n :: n in p.done ==> n < p.next)
    && RecordedSequence(disk.manifest) <= p.max && UpTo(TakenIn(disk, p), p.max)
    && (p.max == RecordedSequence(disk.manifest) || exists e :: e in TakenIn(disk, p) && e.k.seqno == p.max)
  }

  ghost predicate OnTheWay(disk: Disk, p: Progress) {
    InPlace(disk, p) && Stored(disk, p) && Counted(disk, p)
  }

  // ----- Starting -----

  ghost function Nothing(disk: Disk): Progress {
    Progress({}, None, 0, [], [], FirstNumber(disk), RecordedSequence(disk.manifest))
  }

  lemma StartIsOnTheWay(disk: Disk)
    ensures OnTheWay(disk, Nothing(disk))
  {
    assert FilesHold([]) == {} && EntriesIn(disk.logs, {}) == {};
  }

  // ----- Reading -----

  ghost predicate BeginLog(disk: Disk, p: Progress, q: Progress) {
    && p.current.None? && q.current.Some? && q.current.value in Wanted(disk) - p.done
    && (forall n :: n in Wanted(disk) - p.done ==> q.current.value <= n)
    && q == p.(current := q.current, read := 0)
  }

  lemma BeginLogKeeps(disk: Disk, p: Progress, q: Progress)
    requires OnTheWay(disk, p) && BeginLog(disk, p, q)
    ensures OnTheWay(disk, q)
  {
    assert RecordEntries(disk.logs[q.current.value][..0]) == {};
    assert TakenIn(disk, q) == TakenIn(disk, p);
  }

  ghost predicate ReadRecord(disk: Disk, p: Progress, q: Progress) {
    && p.current.Some? && p.current.value in disk.logs && p.read < |disk.logs[p.current.value]|
    && (var record := disk.logs[p.current.value][p.read];
        && Sorted(q.mem) && ToSet(q.mem) == ToSet(p.mem) + ToSet(record)
        && q.max == (if record != [] && record[|record| - 1].k.seqno > p.max then record[|record| - 1].k.seqno else p.max))
    && q == p.(read := p.read + 1, mem := q.mem, max := q.max)
  }

  lemma ReadTakesIn(disk: Disk, p: Progress, q: Progress)
    requires InPlace(disk, p) && ReadRecord(disk, p, q)
    ensures InPlace(disk, q)
    ensures TakenIn(disk, q) == TakenIn(disk, p) + ToSet(disk.logs[p.current.value][p.read])
  {
    var records := disk.logs[p.current.value];
    assert records[..p.read + 1] == records[..p.read] + [records[p.read]];
    RecordEntriesSnoc(records[..p.read], records[p.read]);
  }

  /** The next record is newer than all that has been taken in. */
  lemma NextRecordIsNewer(disk: Disk, p: Progress)
    requires InPlace(disk, p) && LogsInOrder(disk.logs, RecordedLog(disk.manifest))
    requires p.current.Some? && p.read < |disk.logs[p.current.value]|
    ensures InSequence(disk.logs[p.current.value][p.read])
    ensures AllBefore(TakenIn(disk, p), ToSet(disk.logs[p.current.value][p.read]))
  {
    var n := p.current.value;
    DoneBefore(disk.logs, RecordedLog(disk.manifest), p.done, n);
    RecordAfterRest(disk.logs[n], p.read, EntriesIn(disk.logs, p.done));
  }

  lemma TakeIn(filed: set<Entry>, mem: set<Entry>, taken: set<Entry>, record: set<Entry>)
    requires AllBefore(filed, mem) && filed + mem == taken && AllBefore(taken, record)
    ensures AllBefore(filed, mem + record) && filed + (mem + record) == taken + record
  {
  }

  lemma CountIn(taken: set<Entry>, record: seq<Entry>, start: nat, before: nat, after: nat)
    requires InSequence(record) && UpTo(taken, before)
    requires before == start || exists e :: e in taken && e.k.seqno == before
    requires after == if record != [] && record[|record| - 1].k.seqno > before then record[|record| - 1].k.seqno else before
    ensures before <= after && UpTo(taken + ToSet(record), after)
    ensures after == start || exists e :: e in taken + ToSet(record) && e.k.seqno == after
  {
    if record != [] {
      LastIsLargest(record);
      assert record[|record| - 1] in ToSet(record);
    }
  }

  lemma ReadRecordKeeps(disk: Disk, p: Progress, q: Progress)
    requires LogsInOrder(disk.logs, RecordedLog(disk.manifest)) && OnTheWay(disk, p) && ReadRecord(disk, p, q)
    ensures OnTheWay(disk, q)
  {
    var record := disk.logs[p.current.value][p.read];
    ReadTakesIn(disk, p, q);
    NextRecordIsNewer(disk, p);
    hide LogsInOrder, InPlace, RecoveredFiles, FilesHold, TakenIn, InSequence, AllBefore, UpTo, Sorted;
    TakeIn(FilesHold(p.files), ToSet(p.mem), TakenIn(disk, p), ToSet(record));
    CountIn(TakenIn(disk, p), record, RecordedSequence(disk.manifest), p.max, q.max);
  }

  /** `WriteLevel0Table` while the logs are read.  The table gets a number that no file of the version
      has, so nothing that the manifest in charge names is touched. */
  ghost predicate WriteRecovered(disk: Disk, p: Progress, d: Disk, q: Progress, f: TableFile) {
    && p.mem != [] && f.number == p.next && f.entries == p.mem
    && d == disk.(tables := disk.tables[f.number := f])
    && q == p.(mem := [], files := p.files + [f], next := p.next + 1)
  }

  lemma WriteRecoveredKeeps(disk: Disk, p: Progress, d: Disk, q: Progress, f: TableFile)
    requires OnTheWay(disk, p) && WriteRecovered(disk, p, d, q, f)
    ensures OnTheWay(d, q)
  {
    assert TakenIn(d, q) == TakenIn(disk, p);
    assert forall g :: g in p.files ==> g.number < p.next;
    FileAppended(p.files, FirstNumber(disk), p.next, f);
    assert ToSet(q.mem) == {};
    hide RecoveredFiles, FilesHold, TakenIn, UpTo;
  }

  lemma WriteRecoveredIsSafe(disk: Disk, p: Progress, d: Disk, q: Progress, f: TableFile, v: Version, history: set<Entry>, floor: nat)
    requires Safe(disk, v, history, floor) && OnTheWay(disk, p) && WriteRecovered(disk, p, d, q, f)
    ensures Safe(d, v, history, floor)
  {
    assert p.next > RecordedNextFile(disk.manifest);
    hide WellFormedManifest, IsReplay, WellShaped, LogsInOrder, Stored, Counted, Agree, EntriesFrom, VersionEntries;
  }

  /** An empty memtable uses up a number but leaves no table. */
  ghost predicate UseNumber(p: Progress, q: Progress) {
    q == p.(next := p.next + 1)
  }

  lemma UseNumberKeeps(disk: Disk, p: Progress, q: Progress)
    requires OnTheWay(disk, p) && UseNumber(p, q)
    ensures OnTheWay(disk, q)
  {
    assert TakenIn(disk, q) == TakenIn(disk, p);
  }

  ghost predicate EndLog(disk: Disk, p: Progress, q: Progress) {
    && p.current.Some? && p.mem == [] && p.current.value in disk.logs && p.read == |disk.logs[p.current.value]|
    && q == p.(done := p.done + {p.current.value}, current := None, read := 0,
               next := if p.next <= p.current.value then p.current.value + 1 else p.next)
  }

  lemma EndLogKeeps(disk: Disk, p: Progress, q: Progress)
    requires OnTheWay(disk, p) && EndLog(disk, p, q)
    ensures OnTheWay(disk, q)
  {
    var n := p.current.value;
    assert disk.logs[n][..p.read] == disk.logs[n];
    EntriesInSplit(disk.logs, p.done, n);
    assert TakenIn(disk, q) == TakenIn(disk, p);
    assert forall k :: k in Wanted(disk) - q.done ==> k in Wanted(disk) - p.done && k != n;
  }

  // ----- A new log -----

  ghost predicate AllLogsRead(disk: Disk, p: Progress) {
    p.current.None? && p.done == Wanted(disk)
  }

  lemma AllLogsReadIsRecovered(disk: Disk, p: Progress)
    requires OnTheWay(disk, p) && AllLogsRead(disk, p)
    ensures LogsRecovered(disk.logs, RecordedLog(disk.manifest), p.files, FirstNumber(disk), p.next,
                          RecordedSequence(disk.manifest), p.max)
  {
    assert ToSet(p.mem) == {};
    AllRead(disk.logs, RecordedLog(disk.manifest), p.files, FirstNumber(disk), p.next, RecordedSequence(disk.manifest), p.max);
  }

  ghost predicate CreateLog(disk: Disk, p: Progress, d: Disk) {
    AllLogsRead(disk, p) && d == disk.(logs := disk.logs[p.next := []])
  }

  lemma NewLogIsLast(disk: Disk, v: Version, p: Progress)
    requires Recoverable(disk, v) && OnTheWay(disk, p) && AllLogsRead(disk, p)
    ensures forall k :: k in disk.logs ==> k < p.next
  {
    forall k | k in disk.logs ensures k < p.next {
      if RecordedLog(disk.manifest) <= k {
        assert k in Wanted(disk);
      }
    }
  }

  lemma CreateLogIsSafe(disk: Disk, p: Progress, d: Disk, v: Version, history: set<Entry>, floor: nat)
    requires Safe(disk, v, history, floor) && OnTheWay(disk, p) && CreateLog(disk, p, d)
    ensures Safe(d, v, history, floor)
  {
    NewLogIsLast(disk, v, p);
    EmptyLogAddsNothing(disk.logs, p.next, RecordedLog(disk.manifest));
    hide WellFormedManifest, IsReplay, WellShaped, LogsInOrder, Stored, Counted, Agree, EntriesFrom, VersionEntries, InPlace;
  }

  lemma EmptyLogAddsNothing(logs: map<nat, seq<seq<Entry>>>, newLog: nat, from: nat)
    requires forall k :: k in logs ==> k < newLog
    ensures EntriesFrom(logs[newLog := []], from) == EntriesFrom(logs, from)
    ensures LogsInOrder(logs, from) ==> LogsInOrder(logs[newLog := []], from)
    ensures EntriesFrom(logs[newLog := []], newLog) == {}
  {
    var after := logs[newLog := []];
    assert RecordEntries(after[newLog]) == {};
    forall e | e in EntriesFrom(after, from) ensures e in EntriesFrom(logs, from) {
      var k :| k in after && from <= k && e in RecordEntries(after[k]);
    }
    forall e | e in EntriesFrom(logs, from) ensures e in EntriesFrom(after, from) {
      var k :| k in logs && from <= k && e in RecordEntries(logs[k]);
      assert e in RecordEntries(after[k]);
    }
  }

  // ----- The new manifest takes charge -----

  /** The new log is there and nothing else has changed since all logs were read. */
  ghost predicate ReadyToSwitch(disk: Disk, v: Version, p: Progress) {
    && p.next in disk.logs && disk.logs[p.next] == []
    && var before := disk.(logs := disk.logs - {p.next});
       OnTheWay(before, p) && AllLogsRead(before, p) && Recoverable(before, v)
  }

  lemma CreatedIsReady(disk: Disk, p: Progress, d: Disk, v: Version)
    requires Recoverable(disk, v) && OnTheWay(disk, p) && CreateLog(disk, p, d)
    ensures ReadyToSwitch(d, v, p)
  {
    NewLogIsLast(disk, v, p);
    assert d.logs - {p.next} == disk.logs;
    assert d.(logs := d.logs - {p.next}) == disk;
  }

  /** The manifest is written under a new name and then named by CURRENT in one step. */
  ghost predicate SwitchManifest(disk: Disk, v: Version, p: Progress, o: Opened) {
    && o.curLog == p.next && o.nextFile == p.next + 1 && o.lastSequence == p.max
    && Installs(v, RecoveryEdit(o.curLog, o.nextFile, o.lastSequence, p.files), o.version)
    && o.disk == disk.(manifest := [SnapshotEdit(v), RecoveryEdit(o.curLog, o.nextFile, o.lastSequence, p.files)])
  }

  lemma ReadyMeansRecovered(disk: Disk, v: Version, p: Progress)
    requires ReadyToSwitch(disk, v, p)
    ensures var before := disk.(logs := disk.logs - {p.next});
            && LogsRecovered(before.logs, RecordedLog(disk.manifest), p.files, FirstNumber(disk), p.next,
                             RecordedSequence(disk.manifest), p.max)
            && p.max < MAX_SEQUENCE
            && TablesWritten(before.tables, p.files, disk.tables)
            && before.logs[p.next := []] == disk.logs
  {
    var before := disk.(logs := disk.logs - {p.next});
    assert TablesWritten(before.tables, p.files, disk.tables);
    assert OnTheWay(before, p) && AllLogsRead(before, p) && Recoverable(before, v) && FirstNumber(before) == FirstNumber(disk);
    assert p.next in disk.logs && disk.logs[p.next] == [] && before.logs == disk.logs - {p.next};
    hide *;
    AllLogsReadIsRecovered(before, p);
    LastStaysBelowMax(before, v, RecordedLog(disk.manifest), RecordedSequence(disk.manifest), p.files,
                      FirstNumber(before), p.next, p.max);
  }

  /** Step by step, opening ends where `Open` ends. */
  lemma SwitchedIsReopened(disk: Disk, v: Version, p: Progress, o: Opened)
    requires ReadyToSwitch(disk, v, p) && SwitchManifest(disk, v, p, o)
    ensures Reopened(disk.(logs := disk.logs - {p.next}), v, o, p.files)
  {
    hide ReadyToSwitch, LogsRecovered, TablesWritten, Installs, SnapshotEdit, RecoveryEdit;
    ReadyMeansRecovered(disk, v, p);
  }

  lemma BeforeIsSafe(disk: Disk, v: Version, p: Progress, history: set<Entry>, floor: nat)
    requires Safe(disk, v, history, floor) && ReadyToSwitch(disk, v, p)
    ensures Safe(disk.(logs := disk.logs - {p.next}), v, history, floor)
  {
    var before := disk.(logs := disk.logs - {p.next});
    NewLogIsLast(before, v, p);
    EmptyLogAddsNothing(before.logs, p.next, RecordedLog(disk.manifest));
    assert before.logs[p.next := []] == disk.logs;
    hide Recoverable, OnTheWay, AllLogsRead, Agree, EntriesFrom, VersionEntries, LogsInOrder;
  }
}
