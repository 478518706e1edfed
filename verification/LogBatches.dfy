/** Log files as bytes: batches encoded, framed as records, cut by a crash, read and decoded again.
    What the engine's disk holds as lists of batches is what such files are read as. */
module LogBatches {
  import opened Entries
  import opened Coding
  import opened Slices
  import opened LogFormat
  import opened WriteBatches
  import Engine
  import CrashSafety
  import Opening

  /** How user keys and values are written as bytes, and read back. */
  datatype Code = Code(key: UserKey -> Bytes, unkey: Bytes -> UserKey, text: string -> Bytes, untext: Bytes -> string)

  /** The code loses nothing of the entry; a deletion carries no value. */
  predicate Speaks(code: Code, e: Entry) {
    && code.unkey(code.key(e.k.user)) == e.k.user && Short(code.key(e.k.user))
    && if e.k.kind.Value? then code.untext(code.text(e.value)) == e.value && Short(code.text(e.value)) else e.value == ""
  }

  /** A batch as the engine logs it: entries numbered without gaps from `first`. */
  ghost predicate GoodRecord(code: Code, first: nat, record: seq<Entry>) {
    && first + |record| <= MAX_SEQUENCE && |record| < 0x8000_0000
    && forall i :: 0 <= i < |record| ==> Speaks(code, record[i]) && record[i].k.seqno == first + i
  }

  function ToOp(code: Code, e: Entry): Op {
    if e.k.kind.Value? then Put(code.key(e.k.user), code.text(e.value)) else Delete(code.key(e.k.user))
  }

  function FromOp(code: Code, seqno: SequenceNumber, o: Op): Entry {
    match o
    case Put(key, value) => Entry(InternalKey(code.unkey(key), seqno, Value), code.untext(value))
    case Delete(key) => Entry(InternalKey(code.unkey(key), seqno, Deletion), "")
  }

  function ToOps(code: Code, record: seq<Entry>): (r: seq<Op>)
    ensures |r| == |record|
  {
    seq(|record|, i requires 0 <= i < |record| => ToOp(code, record[i]))
  }

  function BatchBytes(code: Code, first: nat, record: seq<Entry>): Bytes
    requires first < TWO_64 && |record| < 0x8000_0000
  {
    Rep(first, ToOps(code, record))
  }

  /** What recovery makes of one log record. */
  function ReadBatch(code: Code, batch: Bytes): Option<seq<Entry>> {
    if |batch| < HEADER then None
    else
      var (first, r) := (DecodeFixed64(batch), Iterated(batch));
      if !r.1 || first + |r.0| > MAX_SEQUENCE then None
      else Some(ReadOf(code, first, r.0))
  }

  lemma BatchReadBack(code: Code, first: nat, record: seq<Entry>)
    requires GoodRecord(code, first, record)
    ensures ReadBatch(code, BatchBytes(code, first, record)) == Some(record)
  {
    var ops := ToOps(code, record);
    OpsBack(code, first, record);
    assert GoodOps(ops);
    BatchRoundTrip(first, ops);
    HeaderBack(first, |ops|, Records(ops));
    hide Iterated, DecodeFixed64, Records, WriteBatches.Header, ToOps, FromOp, GoodRecord, GoodOps, GoodOp;
    assert ReadOf(code, first, ops) == record;
  }

  lemma OpsBack(code: Code, first: nat, record: seq<Entry>)
    requires GoodRecord(code, first, record)
    ensures GoodOps(ToOps(code, record)) && ReadOf(code, first, ToOps(code, record)) == record
  {
    var ops := ToOps(code, record);
    forall i | 0 <= i < |ops| ensures GoodOp(ops[i]) && FromOp(code, first + i, ops[i]) == record[i] {
      assert Speaks(code, record[i]);
    }
    hide Speaks, ToOp, FromOp, GoodOp;
  }

  function ReadOf(code: Code, first: nat, ops: seq<Op>): (r: seq<Entry>)
    requires first + |ops| <= MAX_SEQUENCE
  {
    seq(|ops|, i requires 0 <= i < |ops| => FromOp(code, first + i, ops[i]))
  }

  // ----- Whole files -----

  ghost predicate GoodRecords(code: Code, firsts: seq<nat>, records: seq<seq<Entry>>) {
    |firsts| == |records| && forall i :: 0 <= i < |records| ==> GoodRecord(code, firsts[i], records[i])
  }

  ghost function Batches(code: Code, firsts: seq<nat>, records: seq<seq<Entry>>): (r: seq<Bytes>)
    requires GoodRecords(code, firsts, records)
    ensures |r| == |records|
  {
    if records == [] then []
    else
      var last := |records| - 1;
      Batches(code, firsts[..last], records[..last]) + [BatchBytes(code, firsts[last], records[last])]
  }

  function ReadBatches(code: Code, batches: seq<Bytes>): Option<seq<seq<Entry>>> {
    if batches == [] then Some([])
    else
      var last := |batches| - 1;
      match (ReadBatches(code, batches[..last]), ReadBatch(code, batches[last]))
      case (Some(rest), Some(record)) => Some(rest + [record])
      case _ => None
  }

  /** A log file read from the start; `None` if anything is reported as lost or damaged. */
  function ReadLog(crc: Checksum, code: Code, file: Bytes): Option<seq<seq<Entry>>> {
    var (batches, drops) := ReadAll(crc, file, 0);
    if drops != [] then None else ReadBatches(code, batches)
  }

  lemma ReadOneMore(code: Code, batches: seq<Bytes>, rest: seq<seq<Entry>>, record: seq<Entry>)
    requires batches != [] && ReadBatches(code, batches[..|batches| - 1]) == Some(rest)
    requires ReadBatch(code, batches[|batches| - 1]) == Some(record)
    ensures ReadBatches(code, batches) == Some(rest + [record])
  {
  }

  lemma {:induction false} BatchesReadBack(code: Code, firsts: seq<nat>, records: seq<seq<Entry>>)
    requires GoodRecords(code, firsts, records)
    ensures ReadBatches(code, Batches(code, firsts, records)) == Some(records)
    decreases |records|
  {
    if records != [] {
      var last := |records| - 1;
      assert GoodRecord(code, firsts[last], records[last]);
      assert records == records[..last] + [records[last]];
      hide GoodRecord, BatchBytes, ReadBatch, ReadBatches;
      var rest, batch := Batches(code, firsts[..last], records[..last]), BatchBytes(code, firsts[last], records[last]);
      assert (rest + [batch])[..last] == rest;
      BatchesReadBack(code, firsts[..last], records[..last]);
      BatchReadBack(code, firsts[last], records[last]);
      ReadOneMore(code, rest + [batch], records[..last], records[last]);
    }
  }

  lemma {:induction false} BatchesPrefix(code: Code, firsts: seq<nat>, records: seq<seq<Entry>>, k: nat)
    requires GoodRecords(code, firsts, records) && k <= |records|
    ensures GoodRecords(code, firsts[..k], records[..k])
    ensures Batches(code, firsts, records)[..k] == Batches(code, firsts[..k], records[..k])
    decreases |records|
  {
    hide GoodRecord, BatchBytes;
    if k == |records| {
      assert firsts[..k] == firsts && records[..k] == records;
    } else {
      var last := |records| - 1;
      assert firsts[..last][..k] == firsts[..k] && records[..last][..k] == records[..k];
      BatchesPrefix(code, firsts[..last], records[..last], k);
    }
  }

  /** `file` is a log to which `all` was written, cut so that exactly `records` are whole. */
  ghost predicate CutTo(crc: Checksum, code: Code, firsts: seq<nat>, all: seq<seq<Entry>>, file: Bytes, records: seq<seq<Entry>>)
    requires GoodRecords(code, firsts, all)
  {
    var log := LogBytes(crc, 0, Batches(code, firsts, all));
    && |file| <= |log| && file == log[..|file|]
    && records == all[..WholeRecords(crc, 0, Batches(code, firsts, all), |file|)]
  }

  /** The bytes hold these batches: they were written, and at most a further one was cut. */
  ghost predicate FileHolds(crc: Checksum, code: Code, file: Bytes, records: seq<seq<Entry>>) {
    exists firsts, all :: GoodRecords(code, firsts, all) && CutTo(crc, code, firsts, all, file, records)
  }

  /** Reading the bytes of a cut log gives exactly the batches it holds. */
  lemma CutFileReadBack(crc: Checksum, code: Code, file: Bytes, records: seq<seq<Entry>>)
    requires FileHolds(crc, code, file, records)
    ensures ReadLog(crc, code, file) == Some(records)
  {
    var firsts, all :| GoodRecords(code, firsts, all) && CutTo(crc, code, firsts, all, file, records);
    var batches := Batches(code, firsts, all);
    var k := WholeRecords(crc, 0, batches, |file|);
    hide ReadAll, LogBytes, Batches, ReadBatches, WholeRecords, GoodRecords;
    CutLogRoundTrip(crc, batches, |file|);
    BatchesPrefix(code, firsts, all, k);
    BatchesReadBack(code, firsts[..k], all[..k]);
  }

  // ----- A crash while a batch is being logged -----

  lemma OneMoreBatch(code: Code, firsts: seq<nat>, records: seq<seq<Entry>>, first: nat, record: seq<Entry>)
    requires GoodRecords(code, firsts, records) && GoodRecord(code, first, record)
    ensures GoodRecords(code, firsts + [first], records + [record])
    ensures Batches(code, firsts + [first], records + [record]) == Batches(code, firsts, records) + [BatchBytes(code, first, record)]
  {
    assert (firsts + [first])[..|records|] == firsts && (records + [record])[..|records|] == records;
    hide GoodRecord, BatchBytes;
  }

  /** The file that a writer has made of the batches. */
  ghost function LogFile(crc: Checksum, code: Code, firsts: seq<nat>, records: seq<seq<Entry>>): Bytes
    requires GoodRecords(code, firsts, records)
  {
    LogBytes(crc, 0, Batches(code, firsts, records))
  }

  lemma CutIs(crc: Checksum, code: Code, firsts: seq<nat>, all: seq<seq<Entry>>, n: nat, k: nat)
    requires GoodRecords(code, firsts, all) && n <= |LogFile(crc, code, firsts, all)|
    requires k <= |all| && WholeRecords(crc, 0, Batches(code, firsts, all), n) == k
    ensures FileHolds(crc, code, LogFile(crc, code, firsts, all)[..n], all[..k])
  {
    hide LogBytes, WholeRecords, Batches, GoodRecords;
    assert CutTo(crc, code, firsts, all, LogFile(crc, code, firsts, all)[..n], all[..k]);
  }

  function Whole(records: seq<seq<Entry>>, record: seq<Entry>, all: bool): seq<seq<Entry>> {
    if all then records + [record] else records
  }

  /** However much of one more batch reaches the file, the file holds the earlier batches, and the new
      one exactly if all of it is there. */
  lemma TornBatch(crc: Checksum, code: Code, firsts: seq<nat>, records: seq<seq<Entry>>, first: nat, record: seq<Entry>, n: nat)
    requires GoodRecords(code, firsts, records) && GoodRecord(code, first, record)
    requires GoodRecords(code, firsts + [first], records + [record])
    requires |LogFile(crc, code, firsts, records)| <= n <= |LogFile(crc, code, firsts + [first], records + [record])|
    ensures var whole := LogFile(crc, code, firsts + [first], records + [record]);
            FileHolds(crc, code, whole[..n], Whole(records, record, n == |whole|))
  {
    assert first < TWO_64 && |record| < 0x8000_0000;
    hide *;
    var batches, batch := Batches(code, firsts, records), BatchBytes(code, first, record);
    OneMoreBatch(code, firsts, records, first, record);
    FilesOfBatches(crc, code, firsts, records, first, record);
    WholeOrTorn(crc, batches, batch, n);
    CutIs(crc, code, firsts + [first], records + [record], n, |records| + if n == |LogBytes(crc, 0, batches + [batch])| then 1 else 0);
    PrefixOfSnoc(records, record);
  }

  lemma WholeOrTorn(crc: Checksum, batches: seq<Bytes>, batch: Bytes, n: nat)
    requires |LogBytes(crc, 0, batches)| <= n <= |LogBytes(crc, 0, batches + [batch])|
    ensures WholeRecords(crc, 0, batches + [batch], n) == |batches| + if n == |LogBytes(crc, 0, batches + [batch])| then 1 else 0
  {
    hide *;
    if n < |LogBytes(crc, 0, batches + [batch])| {
      WholeRecordsMonotone(crc, 0, batches, batch, n);
    } else {
      AllWhole(crc, 0, batches + [batch]);
    }
  }

  lemma FilesOfBatches(crc: Checksum, code: Code, firsts: seq<nat>, records: seq<seq<Entry>>, first: nat, record: seq<Entry>)
    requires GoodRecords(code, firsts, records) && GoodRecords(code, firsts + [first], records + [record])
    ensures LogFile(crc, code, firsts, records) == LogBytes(crc, 0, Batches(code, firsts, records))
    ensures LogFile(crc, code, firsts + [first], records + [record]) == LogBytes(crc, 0, Batches(code, firsts + [first], records + [record]))
  {
    hide LogBytes, Batches, GoodRecords;
  }

  lemma PrefixOfSnoc(records: seq<seq<Entry>>, record: seq<Entry>)
    ensures (records + [record])[..|records|] == Whole(records, record, false)
    ensures (records + [record])[..|records| + 1] == Whole(records, record, true)
  {
  }

  /** All log files of a disk. */
  ghost predicate LogsHold(crc: Checksum, code: Code, files: map<nat, Bytes>, logs: map<nat, seq<seq<Entry>>>) {
    files.Keys == logs.Keys && forall k :: k in logs ==> FileHolds(crc, code, files[k], logs[k])
  }

  lemma LogsHoldUpdate(crc: Checksum, code: Code, files: map<nat, Bytes>, logs: map<nat, seq<seq<Entry>>>, k: nat,
                       file: Bytes, records: seq<seq<Entry>>)
    requires LogsHold(crc, code, files, logs) && k in logs && FileHolds(crc, code, file, records)
    ensures LogsHold(crc, code, files[k := file], logs[k := records])
  {
    hide FileHolds;
  }

  /** What recovery reads from the files of a disk is the disk's logs. */
  ghost predicate ReadAs(crc: Checksum, code: Code, files: map<nat, Bytes>, logs: map<nat, seq<seq<Entry>>>) {
    files.Keys == logs.Keys && forall k :: k in logs ==> ReadLog(crc, code, files[k]) == Some(logs[k])
  }

  lemma LogsHoldIsReadAs(crc: Checksum, code: Code, files: map<nat, Bytes>, logs: map<nat, seq<seq<Entry>>>)
    requires LogsHold(crc, code, files, logs)
    ensures ReadAs(crc, code, files, logs)
  {
    hide ReadLog, FileHolds;
    forall k | k in logs ensures ReadLog(crc, code, files[k]) == Some(logs[k]) {
      CutFileReadBack(crc, code, files[k], logs[k]);
    }
  }

  // ----- On the engine's disk -----

  /** The files of a running engine: its current log is what a writer has made of the log's batches, and
      the next batch can be encoded. */
  ghost predicate Writes(crc: Checksum, code: Code, files: map<nat, Bytes>, n: CrashSafety.Node, ops: seq<Engine.Op>, firsts: seq<nat>) {
    && CrashSafety.RoomFor(n.state, ops) && n.curLog in n.disk.logs && LogsHold(crc, code, files, n.disk.logs)
    && GoodRecord(code, n.state.lastSequence + 1, CrashSafety.NextEntries(n.state, ops))
    && GoodRecords(code, firsts, n.disk.logs[n.curLog])
    && files[n.curLog] == LogFile(crc, code, firsts, n.disk.logs[n.curLog])
  }

  /** A log file with one more batch. */
  ghost function Extended(crc: Checksum, code: Code, firsts: seq<nat>, records: seq<seq<Entry>>, first: nat, record: seq<Entry>): Bytes
    requires GoodRecords(code, firsts, records) && GoodRecord(code, first, record)
  {
    OneMoreBatch(code, firsts, records, first, record);
    LogFile(crc, code, firsts + [first], records + [record])
  }

  /** The current log once all of the next batch is written. */
  ghost function WholeFile(crc: Checksum, code: Code, files: map<nat, Bytes>, n: CrashSafety.Node, ops: seq<Engine.Op>, firsts: seq<nat>): Bytes
    requires Writes(crc, code, files, n, ops, firsts)
  {
    Extended(crc, code, firsts, n.disk.logs[n.curLog], n.state.lastSequence + 1, CrashSafety.NextEntries(n.state, ops))
  }

  /** A crash in the middle of logging a batch leaves log files that are read as the engine's disk before
      the step or, if all of the batch has been written, as its disk after it. */
  lemma TornLogWrite(crc: Checksum, code: Code, files: map<nat, Bytes>, n: CrashSafety.Node, t: CrashSafety.Node,
                     ops: seq<Engine.Op>, firsts: seq<nat>, cut: nat)
    requires CrashSafety.LogWrite(n, t, ops) && Writes(crc, code, files, n, ops, firsts)
    requires |files[n.curLog]| <= cut <= |WholeFile(crc, code, files, n, ops, firsts)|
    ensures var whole := WholeFile(crc, code, files, n, ops, firsts);
            ReadAs(crc, code, files[n.curLog := whole[..cut]], if cut == |whole| then t.disk.logs else n.disk.logs)
  {
    hide LogBytes, Batches, BatchBytes, GoodRecord, GoodRecords, FileHolds, LogFile, ReadLog, LogsHold, ReadAs, CrashSafety.NextEntries;
    var first, record, records := n.state.lastSequence + 1, CrashSafety.NextEntries(n.state, ops), n.disk.logs[n.curLog];
    var whole := WholeFile(crc, code, files, n, ops, firsts);
    OneMoreBatch(code, firsts, records, first, record);
    TornBatch(crc, code, firsts, records, first, record, cut);
    var now := Whole(records, record, cut == |whole|);
    LogsHoldUpdate(crc, code, files, n.disk.logs, n.curLog, whole[..cut], now);
    assert n.disk.logs[n.curLog := records] == n.disk.logs;
    assert n.disk.logs[n.curLog := now] == if cut == |whole| then t.disk.logs else n.disk.logs;
    LogsHoldIsReadAs(crc, code, files[n.curLog := whole[..cut]], n.disk.logs[n.curLog := now]);
  }

  /** So what is recovered from the bytes after such a crash is every batch logged before, with the new
      one or without it: nothing that was logged is lost and nothing is half there. */
  lemma TornLogWriteIsRecovered(crc: Checksum, code: Code, files: map<nat, Bytes>, n: CrashSafety.Node, t: CrashSafety.Node,
                                ops: seq<Engine.Op>, firsts: seq<nat>, cut: nat)
    requires CrashSafety.Durable(n) && CrashSafety.LogWrite(n, t, ops) && Writes(crc, code, files, n, ops, firsts)
    requires |files[n.curLog]| <= cut <= |WholeFile(crc, code, files, n, ops, firsts)|
    ensures var whole := WholeFile(crc, code, files, n, ops, firsts);
            var logs := if cut == |whole| then t.disk.logs else n.disk.logs;
            && ReadAs(crc, code, files[n.curLog := whole[..cut]], logs)
            && CrashSafety.RoomFor(n.state, n.pending)
            && Opening.Safe(n.disk.(logs := logs), n.state.store.version,
                            CrashSafety.Logged(n) + if cut == |whole| then ToSet(CrashSafety.NextEntries(n.state, ops)) else {},
                            n.state.floor)
  {
    hide *;
    TornLogWrite(crc, code, files, n, t, ops, firsts, cut);
    CrashSafety.LoggedOrNotIsSafe(n, t, ops);
    assert CrashSafety.Logged(n) + {} == CrashSafety.Logged(n);
  }
}
