/** The write-ahead log: records cut into fragments that never cross a block boundary. */
module LogFormat {
  import opened Coding
  import opened Entries

  const BLOCK_SIZE := 32768
  /** Checksum (4 bytes), length (2 bytes), type (1 byte). */
  const HEADER_SIZE := 7

  /** The proofs hold for whatever checksum both sides use. */
  type Checksum = seq<Byte> -> Uint32

  const ZERO: Byte := 0
  const FULL: Byte := 1
  const FIRST: Byte := 2
  const MIDDLE: Byte := 3
  const LAST: Byte := 4

  // ----- Checksums -----

  /** A stored checksum is rotated right by 15 bits and shifted by a constant. */
  function Mask(crc: Uint32): Uint32 {
    (crc / 0x8000 + crc % 0x8000 * 0x2_0000 + 0xa282_ead8) % 0x1_0000_0000
  }

  function Unmask(masked: Uint32): Uint32 {
    var rot := (masked - 0xa282_ead8) % 0x1_0000_0000;
    rot / 0x2_0000 + rot % 0x2_0000 * 0x8000
  }

  lemma UnmaskMask(crc: Uint32)
    ensures Unmask(Mask(crc)) == crc
  {
    var high, low := crc / 0x8000, crc % 0x8000;
    var rot := high + low * 0x2_0000;
    assert rot < 0x1_0000_0000;
    assert (Mask(crc) - 0xa282_ead8) % 0x1_0000_0000 == rot;
  }

  // ----- What the writer lays down -----

  function Zeros(n: nat): (r: seq<Byte>)
    ensures |r| == n
  {
    seq(n, _ => 0)
  }

  function Header(crc: Checksum, kind: Byte, payload: seq<Byte>): (r: seq<Byte>)
    requires |payload| <= 0xffff
    ensures |r| == HEADER_SIZE
  {
    EncodeFixed32(Mask(crc([kind] + payload))) + [|payload| % 256, |payload| / 256, kind]
  }

  /** Bytes left in the block of position `p`. */
  function Room(p: nat): (r: nat)
    ensures 1 <= r <= BLOCK_SIZE
  {
    BLOCK_SIZE - p % BLOCK_SIZE
  }

  /** A block's last bytes stay zero when no header fits. */
  function Pad(p: nat): nat {
    if Room(p) < HEADER_SIZE then Room(p) else 0
  }

  function FragmentLength(p: nat, left: nat): (n: nat)
    ensures n <= left && n <= 0xffff
    ensures Pad(p) + HEADER_SIZE + n <= Pad(p) + Room(p + Pad(p))
  {
    var avail := Room(p + Pad(p)) - HEADER_SIZE;
    if left < avail then left else avail
  }

  function FragmentType(begin: bool, end: bool): Byte {
    if begin && end then FULL else if begin then FIRST else if end then LAST else MIDDLE
  }

  /** Bytes of one fragment with the padding in front of it. */
  function FragmentBytes(crc: Checksum, p: nat, kind: Byte, payload: seq<Byte>): (r: seq<Byte>)
    requires |payload| <= 0xffff
    ensures |r| == Pad(p) + HEADER_SIZE + |payload|
  {
    Zeros(Pad(p)) + Header(crc, kind, payload) + payload
  }

  /** Bytes that a record, or what is left of it, takes from position `p` on. */
  function RecordBytes(crc: Checksum, p: nat, data: seq<Byte>, begin: bool): (r: seq<Byte>)
    decreases |data|, if p % BLOCK_SIZE == BLOCK_SIZE - HEADER_SIZE then 1 else 0
  {
    var n := FragmentLength(p, |data|);
    var q := p + Pad(p) + HEADER_SIZE + n;
    var fragment := FragmentBytes(crc, p, FragmentType(begin, n == |data|), data[..n]);
    if n == |data| then fragment else fragment + RecordBytes(crc, q, data[n..], false)
  }

  function LogBytes(crc: Checksum, p: nat, records: seq<seq<Byte>>): seq<Byte>
    decreases |records|
  {
    if records == [] then []
    else
      var r := RecordBytes(crc, p, records[0], true);
      r + LogBytes(crc, p + |r|, records[1..])
  }

  // ----- What a reader makes of any file -----

  /** Outcome of reading one fragment; `drop` is the number of bytes reported as lost. */
  datatype Physical =
    | Fragment(kind: Byte, payload: seq<Byte>)
    | Eof
    | Bad(drop: Option<nat>)

  function Min(a: nat, b: nat): nat { if a < b then a else b }

  /** Reads the fragment at the head of the buffer, and says how much of the buffer is used up. */
  function ParseFragment(crc: Checksum, buffer: seq<Byte>, atEof: bool): (r: (Physical, nat))
    requires HEADER_SIZE <= |buffer|
    ensures HEADER_SIZE <= r.1 <= |buffer|
  {
    var low: nat, high: nat := buffer[4], buffer[5];
    var length := low + high * 256;
    var kind := buffer[6];
    if HEADER_SIZE + length > |buffer| then
      (if atEof then Eof else Bad(Some(|buffer|)), |buffer|)
    else if kind == ZERO && length == 0 then
      (Bad(None), |buffer|)
    else if Unmask(DecodeFixed32(buffer)) != crc(buffer[6..HEADER_SIZE + length]) then
      (Bad(Some(|buffer|)), |buffer|)
    else
      (Fragment(kind, buffer[HEADER_SIZE..HEADER_SIZE + length]), HEADER_SIZE + length)
  }

  /** The rest of the block that position `c` is in, as far as the file goes. */
  function BlockRest(file: seq<Byte>, c: nat): (r: seq<Byte>)
    requires c <= |file|
    ensures |r| <= |file| - c
  {
    file[c..Min(c + Room(c), |file|)]
  }

  /** The file ends inside the block of position `c`. */
  predicate EndsInBlock(file: seq<Byte>, c: nat) {
    |file| < c + Room(c)
  }

  /** Reads the fragment at position `c` of the file, and says where reading goes on. */
  function NextPhysical(crc: Checksum, file: seq<Byte>, c: nat): (r: (Physical, nat))
    requires c <= |file|
    ensures c <= r.1 <= |file| && (!r.0.Eof? ==> c < r.1)
    decreases |file| - c
  {
    var buffer := BlockRest(file, c);
    if |buffer| < HEADER_SIZE then
      if EndsInBlock(file, c) then (Eof, |file|) else NextPhysical(crc, file, c + Room(c))
    else
      var (found, used) := ParseFragment(crc, buffer, EndsInBlock(file, c));
      (found, c + used)
  }

  /** One logical record read, or none left; with the losses reported on the way. */
  datatype Reading = Reading(record: Option<seq<Byte>>, next: nat, drops: seq<nat>)

  function Dropping(drops: seq<nat>, r: Reading): Reading {
    r.(drops := drops + r.drops)
  }

  /** What a fragment does to the record being put together. */
  datatype Assembly =
    | Done(record: seq<Byte>, drops: seq<nat>)
    | More(inRecord: bool, scratch: seq<Byte>, drops: seq<nat>)

  /** Losses that were reported when the fragment was read. */
  function Reported(found: Physical): seq<nat> {
    if found.Bad? && found.drop.Some? then [found.drop.value] else []
  }

  function LostPart(inRecord: bool, scratch: seq<Byte>): seq<nat> {
    if inRecord && scratch != [] then [|scratch|] else []
  }

  function Assemble(found: Physical, inRecord: bool, scratch: seq<Byte>): Assembly
    requires !found.Eof?
  {
    match found
    case Bad(_) => More(false, if inRecord then [] else scratch, if inRecord then [|scratch|] else [])
    case Fragment(kind, payload) =>
      if kind == FULL then Done(payload, LostPart(inRecord, scratch))
      else if kind == FIRST then More(true, payload, LostPart(inRecord, scratch))
      else if kind == MIDDLE then
        if inRecord then More(true, scratch + payload, []) else More(false, scratch, [|payload|])
      else if kind == LAST then
        if inRecord then Done(scratch + payload, []) else More(false, scratch, [|payload|])
      else More(false, [], [|payload| + if inRecord then |scratch| else 0])
  }

  function NextRecord(crc: Checksum, file: seq<Byte>, c: nat, inRecord: bool, scratch: seq<Byte>): (r: Reading)
    requires c <= |file|
    ensures c <= r.next <= |file| && (r.record.Some? ==> c < r.next)
    decreases |file| - c
  {
    var (found, next) := NextPhysical(crc, file, c);
    if found.Eof? then Reading(None, next, [])
    else
      match Assemble(found, inRecord, scratch)
      case Done(record, drops) => Reading(Some(record), next, Reported(found) + drops)
      case More(inRecord', scratch', drops) => Dropping(Reported(found) + drops, NextRecord(crc, file, next, inRecord', scratch'))
  }

  /** All records of a file from position `c` on, and all reported losses. */
  function ReadAll(crc: Checksum, file: seq<Byte>, c: nat): (seq<seq<Byte>>, seq<nat>)
    requires c <= |file|
    decreases |file| - c
  {
    var r := NextRecord(crc, file, c, false, []);
    if r.record.None? then ([], r.drops)
    else
      var (records, drops) := ReadAll(crc, file, r.next);
      ([r.record.value] + records, r.drops + drops)
  }

  // ----- Reading back what was written -----

  lemma HeaderFields(crc: Checksum, kind: Byte, payload: seq<Byte>, rest: seq<Byte>)
    requires |payload| <= 0xffff
    ensures var h := Header(crc, kind, payload) + rest;
            && Unmask(DecodeFixed32(h)) == crc([kind] + payload)
            && h[4] == |payload| % 256 && h[5] == |payload| / 256 && h[6] == kind
  {
    var tail := [|payload| % 256, |payload| / 256, kind];
    assert Header(crc, kind, payload) + rest == EncodeFixed32(Mask(crc([kind] + payload))) + (tail + rest);
    DecodeEncodeFixed32(Mask(crc([kind] + payload)), tail + rest);
    UnmaskMask(crc([kind] + payload));
  }

  /** A fragment that is wholly in the buffer is read back. */
  lemma WholeFragment(crc: Checksum, kind: Byte, payload: seq<Byte>, rest: seq<Byte>, atEof: bool)
    requires |payload| <= 0xffff && (kind != ZERO || payload != [])
    ensures ParseFragment(crc, Header(crc, kind, payload) + payload + rest, atEof) == (Fragment(kind, payload), HEADER_SIZE + |payload|)
  {
    var h := Header(crc, kind, payload);
    var buffer := h + payload + rest;
    assert buffer == h + (payload + rest);
    HeaderFields(crc, kind, payload, payload + rest);
    assert buffer[HEADER_SIZE..HEADER_SIZE + |payload|] == payload;
    assert buffer[6..HEADER_SIZE + |payload|] == [kind] + payload;
  }

  /** A fragment that is cut off counts as the end of the file. */
  lemma CutFragment(crc: Checksum, kind: Byte, payload: seq<Byte>, k: nat)
    requires |payload| <= 0xffff && k < |payload|
    ensures ParseFragment(crc, Header(crc, kind, payload) + payload[..k], true) == (Eof, HEADER_SIZE + k)
  {
    HeaderFields(crc, kind, payload, payload[..k]);
  }

  /** One of the two is what the other begins with: a file and what was written to it, cut somewhere. */
  ghost predicate Fits(file: seq<Byte>, written: seq<Byte>) {
    file <= written || written <= file
  }

  lemma FitsRest(file: seq<Byte>, a: seq<Byte>, b: seq<Byte>)
    requires Fits(file, a + b)
    ensures Fits(file, a)
    ensures |a| <= |file| ==> a <= file && Fits(file[|a|..], b)
  {
    if a + b <= file {
      assert file == a + b + file[|a + b|..];
      assert file[|a|..] == b + file[|a + b|..];
    } else if |a| <= |file| {
      assert file == (a + b)[..|file|] == a + b[..|file| - |a|];
      assert file[|a|..] == b[..|file| - |a|];
    } else {
      assert file == (a + b)[..|file|] == a[..|file|];
    }
  }

  lemma UnpaddedWhole(crc: Checksum, file: seq<Byte>, p: nat, kind: Byte, payload: seq<Byte>)
    requires HEADER_SIZE + |payload| <= Room(p) && |payload| <= 0xffff && (kind != ZERO || payload != [])
    requires p <= |file| && Header(crc, kind, payload) + payload <= file[p..]
    ensures NextPhysical(crc, file, p) == (Fragment(kind, payload), p + HEADER_SIZE + |payload|)
  {
    hide ParseFragment, Header;
    var b := Header(crc, kind, payload) + payload;
    var buffer := BlockRest(file, p);
    assert buffer == file[p..][..|buffer|];
    assert buffer == b + buffer[|b|..];
    WholeFragment(crc, kind, payload, buffer[|b|..], EndsInBlock(file, p));
  }

  lemma UnpaddedCut(crc: Checksum, file: seq<Byte>, p: nat, kind: Byte, payload: seq<Byte>)
    requires HEADER_SIZE + |payload| <= Room(p) && |payload| <= 0xffff && kind != ZERO
    requires p <= |file| && file[p..] <= Header(crc, kind, payload) + payload && |file| < p + HEADER_SIZE + |payload|
    ensures NextPhysical(crc, file, p) == (Eof, |file|)
  {
    var b := Header(crc, kind, payload) + payload;
    var buffer := BlockRest(file, p);
    assert buffer == file[p..] == b[..|buffer|];
    if HEADER_SIZE <= |buffer| {
      assert buffer == Header(crc, kind, payload) + payload[..|buffer| - HEADER_SIZE];
      CutFragment(crc, kind, payload, |buffer| - HEADER_SIZE);
    }
  }

  lemma UnpaddedRoundTrip(crc: Checksum, file: seq<Byte>, p: nat, kind: Byte, payload: seq<Byte>)
    requires HEADER_SIZE + |payload| <= Room(p) && |payload| <= 0xffff && kind != ZERO
    requires p <= |file| && Fits(file[p..], Header(crc, kind, payload) + payload)
    ensures var q := p + HEADER_SIZE + |payload|;
            NextPhysical(crc, file, p) == if q <= |file| then (Fragment(kind, payload), q) else (Eof, |file|)
  {
    hide NextPhysical;
    if p + HEADER_SIZE + |payload| <= |file| {
      UnpaddedWhole(crc, file, p, kind, payload);
    } else {
      UnpaddedCut(crc, file, p, kind, payload);
    }
  }

  /** Padding is skipped, and nothing is read into it. */
  lemma SkipPad(crc: Checksum, file: seq<Byte>, p: nat)
    requires p <= |file| && Pad(p) > 0
    ensures p + Pad(p) <= |file| ==> NextPhysical(crc, file, p) == NextPhysical(crc, file, p + Pad(p))
    ensures |file| < p + Pad(p) ==> NextPhysical(crc, file, p) == (Eof, |file|)
  {
  }

  lemma FragmentIsPadded(crc: Checksum, p: nat, kind: Byte, payload: seq<Byte>)
    requires |payload| <= 0xffff
    ensures FragmentBytes(crc, p, kind, payload) == Zeros(Pad(p)) + (Header(crc, kind, payload) + payload)
  {
  }

  /** One written fragment, however the file is cut behind it or inside it. */
  lemma FragmentRoundTrip(crc: Checksum, file: seq<Byte>, p: nat, kind: Byte, payload: seq<Byte>, q: nat)
    requires HEADER_SIZE + |payload| <= Room(p + Pad(p)) && |payload| <= 0xffff && kind != ZERO
    requires p <= |file| && Fits(file[p..], FragmentBytes(crc, p, kind, payload))
    requires q == p + Pad(p) + HEADER_SIZE + |payload|
    ensures NextPhysical(crc, file, p) == if q <= |file| then (Fragment(kind, payload), q) else (Eof, |file|)
  {
    hide NextPhysical, Pad, Room, Header, Fits, FragmentBytes, Zeros;
    var start := p + Pad(p);
    var b := Header(crc, kind, payload) + payload;
    FragmentIsPadded(crc, p, kind, payload);
    FitsRest(file[p..], Zeros(Pad(p)), b);
    if Pad(p) > 0 {
      SkipPad(crc, file, p);
    }
    if start <= |file| {
      assert file[p..][Pad(p)..] == file[start..];
      UnpaddedRoundTrip(crc, file, start, kind, payload);
    }
  }

  /** Where a record's bytes end. */
  function RecordEnd(crc: Checksum, p: nat, data: seq<Byte>, begin: bool): nat {
    p + |RecordBytes(crc, p, data, begin)|
  }

  /** A fragment fits into the rest of its block, and its length into its header; one that is not the last
      fills the block. */
  lemma FragmentFits(p: nat, left: nat, begin: bool)
    ensures HEADER_SIZE + FragmentLength(p, left) <= Room(p + Pad(p)) && FragmentLength(p, left) <= 0xffff
    ensures FragmentLength(p, left) < left ==> (p + Pad(p) + HEADER_SIZE + FragmentLength(p, left)) % BLOCK_SIZE == 0
    ensures FragmentLength(p, left) <= left && FragmentType(begin, true) != ZERO && FragmentType(begin, false) != ZERO
  {
  }

  /** A fragment that is not the last takes data, or else fills its block with an empty payload. */
  lemma FragmentDecreases(p: nat, left: nat, n: nat, q: nat)
    requires n == FragmentLength(p, left) < left && q == p + Pad(p) + HEADER_SIZE + n
    ensures n > 0 || (p % BLOCK_SIZE == BLOCK_SIZE - HEADER_SIZE && q % BLOCK_SIZE != BLOCK_SIZE - HEADER_SIZE)
  {
  }

  /** A fragment that is read ends the record or is put behind what has been read of it. */
  lemma FragmentTaken(crc: Checksum, file: seq<Byte>, p: nat, begin: bool, end: bool, payload: seq<Byte>, done: seq<Byte>, q: nat)
    requires p <= |file| && (begin ==> done == [])
    requires NextPhysical(crc, file, p) == if q <= |file| then (Fragment(FragmentType(begin, end), payload), q) else (Eof, |file|)
    ensures NextRecord(crc, file, p, !begin, done) ==
            if |file| < q then Reading(None, |file|, [])
            else if end then Reading(Some(done + payload), q, [])
            else NextRecord(crc, file, q, true, done + payload)
  {
    hide NextPhysical;
    assert done == [] ==> done + payload == payload;
  }

  /** A written record is read back if its last fragment is there, and otherwise there is no record
      and no complaint. */
  lemma {:induction false} RecordRoundTrip(crc: Checksum, file: seq<Byte>, p: nat, data: seq<Byte>, begin: bool, done: seq<Byte>)
    requires p <= |file| && Fits(file[p..], RecordBytes(crc, p, data, begin))
    requires begin ==> done == []
    ensures NextRecord(crc, file, p, !begin, done) ==
            var end := RecordEnd(crc, p, data, begin);
            if end <= |file| then Reading(Some(done + data), end, []) else Reading(None, |file|, [])
    decreases |data|, if p % BLOCK_SIZE == BLOCK_SIZE - HEADER_SIZE then 1 else 0
  {
    hide NextPhysical, NextRecord, FragmentBytes, FragmentType, Pad, Room, FragmentLength, Fits;
    var n := FragmentLength(p, |data|);
    var q := p + Pad(p) + HEADER_SIZE + n;
    FragmentFits(p, |data|, begin);
    if n == |data| {
      assert data[..n] == data;
      FragmentRoundTrip(crc, file, p, FragmentType(begin, true), data, q);
      FragmentTaken(crc, file, p, begin, true, data, done, q);
    } else {
      FitsRest(file[p..], FragmentBytes(crc, p, FragmentType(begin, false), data[..n]), RecordBytes(crc, q, data[n..], false));
      FragmentRoundTrip(crc, file, p, FragmentType(begin, false), data[..n], q);
      FragmentTaken(crc, file, p, begin, false, data[..n], done, q);
      if q <= |file| {
        assert file[p..][q - p..] == file[q..];
        FragmentDecreases(p, |data|, n, q);
        RecordRoundTrip(crc, file, q, data[n..], false, done + data[..n]);
        assert done + data[..n] + data[n..] == done + data;
      }
    }
  }

  /** How many records end within the first `n` bytes. */
  function WholeRecords(crc: Checksum, p: nat, records: seq<seq<Byte>>, n: nat): (k: nat)
    ensures k <= |records|
    decreases |records|
  {
    if records == [] || RecordEnd(crc, p, records[0], true) > n then 0
    else 1 + WholeRecords(crc, RecordEnd(crc, p, records[0], true), records[1..], n)
  }

  lemma NothingLeft(crc: Checksum, file: seq<Byte>)
    ensures ReadAll(crc, file, |file|) == ([], [])
  {
    assert NextPhysical(crc, file, |file|) == (Eof, |file|);
  }

  lemma {:induction false} ReadAllFrom(crc: Checksum, file: seq<Byte>, p: nat, records: seq<seq<Byte>>)
    requires p <= |file| <= p + |LogBytes(crc, p, records)| && file[p..] <= LogBytes(crc, p, records)
    ensures ReadAll(crc, file, p) == (records[..WholeRecords(crc, p, records, |file|)], [])
    decreases |records|
  {
    hide RecordBytes, Pad, Room, NextPhysical;
    if records == [] {
      NothingLeft(crc, file);
    } else {
      hide NextRecord;
      var q := RecordEnd(crc, p, records[0], true);
      FitsRest(file[p..], RecordBytes(crc, p, records[0], true), LogBytes(crc, q, records[1..]));
      RecordRoundTrip(crc, file, p, records[0], true, []);
      if q <= |file| {
        assert file[p..][q - p..] == file[q..];
        ReadAllFrom(crc, file, q, records[1..]);
        var none: seq<Byte> := [];
        assert none + records[0] == records[0];
        assert ReadAll(crc, file, p).1 == [];
        assert [records[0]] + records[1..][..WholeRecords(crc, q, records[1..], |file|)]
            == records[..1 + WholeRecords(crc, q, records[1..], |file|)];
      } else {
        assert records[..0] == [];
      }
    }
  }

  /** However a log is cut, reading it gives exactly the records whose last fragment is wholly there,
      in order, and reports no loss. */
  lemma CutLogRoundTrip(crc: Checksum, records: seq<seq<Byte>>, n: nat)
    requires n <= |LogBytes(crc, 0, records)|
    ensures ReadAll(crc, LogBytes(crc, 0, records)[..n], 0) == (records[..WholeRecords(crc, 0, records, n)], [])
  {
    ReadAllFrom(crc, LogBytes(crc, 0, records)[..n], 0, records);
  }

  /** Nothing is lost from a log that is not cut. */
  lemma {:induction false} AllWhole(crc: Checksum, p: nat, records: seq<seq<Byte>>)
    ensures WholeRecords(crc, p, records, p + |LogBytes(crc, p, records)|) == |records|
    decreases |records|
  {
    if records != [] {
      AllWhole(crc, RecordEnd(crc, p, records[0], true), records[1..]);
    }
  }

  /** A log that is not cut is read back whole. */
  lemma WholeLogRoundTrip(crc: Checksum, records: seq<seq<Byte>>)
    ensures ReadAll(crc, LogBytes(crc, 0, records), 0) == (records, [])
  {
    hide *;
    var log := LogBytes(crc, 0, records);
    assert log[..|log|] == log && records[..|records|] == records;
    AllWhole(crc, 0, records);
    CutLogRoundTrip(crc, records, |log|);
  }

  /** A writer that adds one record after the other lays down the whole log. */
  lemma {:induction false} LogAppend(crc: Checksum, p: nat, records: seq<seq<Byte>>, last: seq<Byte>)
    ensures var log := LogBytes(crc, p, records);
            LogBytes(crc, p, records + [last]) == log + RecordBytes(crc, p + |log|, last, true)
    decreases |records|
  {
    hide RecordBytes;
    if records == [] {
      assert LogBytes(crc, p, [last]) == RecordBytes(crc, p, last, true) + LogBytes(crc, p + |RecordBytes(crc, p, last, true)|, []);
      assert records + [last] == [last];
    } else {
      LogAppend(crc, RecordEnd(crc, p, records[0], true), records[1..], last);
      assert (records + [last])[1..] == records[1..] + [last];
    }
  }

  lemma {:induction false} WholeRecordsMonotone(crc: Checksum, p: nat, records: seq<seq<Byte>>, last: seq<Byte>, n: nat)
    requires p + |LogBytes(crc, p, records)| <= n < p + |LogBytes(crc, p, records + [last])|
    ensures WholeRecords(crc, p, records + [last], n) == |records|
    decreases |records|
  {
    hide RecordBytes;
    LogAppend(crc, p, records, last);
    if records != [] {
      assert (records + [last])[1..] == records[1..] + [last];
      WholeRecordsMonotone(crc, RecordEnd(crc, p, records[0], true), records[1..], last, n);
    }
  }

  /** A crash while the last record is being written loses that record and no other. */
  lemma TornRecordIsLost(crc: Checksum, records: seq<seq<Byte>>, last: seq<Byte>, n: nat)
    requires |LogBytes(crc, 0, records)| <= n < |LogBytes(crc, 0, records + [last])|
    ensures ReadAll(crc, LogBytes(crc, 0, records + [last])[..n], 0) == (records, [])
  {
    WholeRecordsMonotone(crc, 0, records, last, n);
    CutLogRoundTrip(crc, records + [last], n);
    assert (records + [last])[..|records|] == records;
  }
}
