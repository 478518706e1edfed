/** What a log reader may be trusted with: on any bytes at all, whatever it returns lies in the file under
    a matching checksum, whatever fails its checksum is reported, and no payload disappears unreported. */
module LogIntegrity {
  import opened Coding
  import opened Entries
  import opened LogFormat

  // ----- Fragments -----

  /** A fragment lies at position `p`, inside one block and under its checksum. */
  predicate StoredAt(crc: Checksum, file: seq<Byte>, p: nat, kind: Byte, payload: seq<Byte>) {
    && p <= |file| && |payload| <= 0xffff && HEADER_SIZE + |payload| <= Room(p)
    && Header(crc, kind, payload) + payload <= file[p..]
  }

  /** A header lies at `p`, and what it announces is wholly there, but is not what was summed. */
  predicate DamagedAt(crc: Checksum, file: seq<Byte>, p: nat) {
    && p + HEADER_SIZE <= |file| && HEADER_SIZE <= Room(p)
    && var length := file[p + 4] as nat + file[p + 5] as nat * 256;
       && p + HEADER_SIZE + length <= |file| && HEADER_SIZE + length <= Room(p)
       && (file[p + 6] != ZERO || length != 0)
       && file[p..p + 4] != EncodeFixed32(Mask(crc(file[p + 6..p + HEADER_SIZE + length])))
  }

  lemma MaskUnmask(masked: Uint32)
    ensures Mask(Unmask(masked)) == masked
  {
    var rot := (masked - 0xa282_ead8) % 0x1_0000_0000;
    var high, low := rot / 0x2_0000, rot % 0x2_0000;
    var crc := Unmask(masked);
    assert crc == high + low * 0x8000;
    assert crc / 0x8000 == low && crc % 0x8000 == high;
    assert crc / 0x8000 + crc % 0x8000 * 0x2_0000 == rot;
  }

  lemma EncodeDecodeFixed32(b: seq<Byte>)
    requires |b| >= 4
    ensures EncodeFixed32(DecodeFixed32(b)) == b[..4]
  {
    var a: nat, c: nat, d: nat, e: nat := b[0], b[1], b[2], b[3];
    var n := DecodeFixed32(b);
    assert n / 0x100 == c + d * 0x100 + e * 0x1_0000;
    assert n / 0x1_0000 == d + e * 0x100;
    assert n / 0x100_0000 == e;
  }

  /** The stored checksum matches if and only if its four bytes are those of the masked checksum. */
  lemma ChecksumBytes(b: seq<Byte>, sum: Uint32)
    requires |b| >= 4
    ensures Unmask(DecodeFixed32(b)) == sum <==> b[..4] == EncodeFixed32(Mask(sum))
  {
    EncodeDecodeFixed32(b);
    MaskUnmask(DecodeFixed32(b));
    UnmaskMask(sum);
    if b[..4] == EncodeFixed32(Mask(sum)) {
      DecodeEncodeFixed32(Mask(sum), b[4..]);
      assert b == b[..4] + b[4..];
    }
  }

  /** A header is its checksum, the length of the payload, and the type. */
  lemma HeaderIs(crc: Checksum, buffer: seq<Byte>, payload: seq<Byte>)
    requires HEADER_SIZE + |payload| <= |buffer| && payload == buffer[HEADER_SIZE..HEADER_SIZE + |payload|]
    requires buffer[4] as nat + buffer[5] as nat * 256 == |payload|
    requires buffer[..4] == EncodeFixed32(Mask(crc(buffer[6..HEADER_SIZE + |payload|])))
    ensures |payload| <= 0xffff && Header(crc, buffer[6], payload) + payload == buffer[..HEADER_SIZE + |payload|]
  {
    hide Mask, EncodeFixed32;
    assert buffer[6..HEADER_SIZE + |payload|] == [buffer[6]] + payload;
    assert buffer[..HEADER_SIZE] == buffer[..4] + [buffer[4], buffer[5], buffer[6]];
    assert Header(crc, buffer[6], payload) == buffer[..HEADER_SIZE];
    assert buffer[..HEADER_SIZE + |payload|] == buffer[..HEADER_SIZE] + payload;
  }

  lemma ParsedIsStored(crc: Checksum, buffer: seq<Byte>, atEof: bool)
    requires HEADER_SIZE <= |buffer| && ParseFragment(crc, buffer, atEof).0.Fragment?
    ensures var (found, used) := ParseFragment(crc, buffer, atEof);
            && |found.payload| <= 0xffff && used == HEADER_SIZE + |found.payload|
            && Header(crc, found.kind, found.payload) + found.payload == buffer[..used]
            && (found.kind != ZERO || found.payload != [])
  {
    hide Mask, Unmask, EncodeFixed32, DecodeFixed32, Header;
    var found := ParseFragment(crc, buffer, atEof).0;
    ChecksumBytes(buffer, crc(buffer[6..HEADER_SIZE + |found.payload|]));
    HeaderIs(crc, buffer, found.payload);
  }

  /** Reading goes on behind the padding. */
  lemma BehindPad(crc: Checksum, file: seq<Byte>, c: nat)
    requires c <= |file|
    ensures c + Pad(c) <= |file| ==> NextPhysical(crc, file, c) == NextPhysical(crc, file, c + Pad(c))
    ensures |file| < c + Pad(c) + HEADER_SIZE ==> NextPhysical(crc, file, c) == (Eof, |file|)
    ensures HEADER_SIZE <= Room(c + Pad(c))
  {
    hide ParseFragment;
    if Pad(c) > 0 {
      SkipPad(crc, file, c);
    }
  }

  lemma AtHeader(crc: Checksum, file: seq<Byte>, p: nat)
    requires p + HEADER_SIZE <= |file| && HEADER_SIZE <= Room(p)
    ensures HEADER_SIZE <= |BlockRest(file, p)|
    ensures var (found, used) := ParseFragment(crc, BlockRest(file, p), EndsInBlock(file, p));
            NextPhysical(crc, file, p) == (found, p + used)
  {
    hide ParseFragment;
  }

  lemma PrefixOfRest(file: seq<Byte>, p: nat, b: seq<Byte>)
    requires p <= |file| && |b| <= |BlockRest(file, p)| && b == BlockRest(file, p)[..|b|]
    ensures b <= file[p..] && |b| <= Room(p)
  {
    assert BlockRest(file, p) == file[p..][..|BlockRest(file, p)|];
  }

  /** Every fragment that is read lies in the file, right behind the padding, under its checksum. */
  lemma PhysicalIsStored(crc: Checksum, file: seq<Byte>, c: nat)
    requires c <= |file| && NextPhysical(crc, file, c).0.Fragment?
    ensures var (found, next) := NextPhysical(crc, file, c);
            && StoredAt(crc, file, c + Pad(c), found.kind, found.payload)
            && next == c + Pad(c) + HEADER_SIZE + |found.payload|
            && (found.kind != ZERO || found.payload != [])
  {
    hide ParseFragment, NextPhysical, Header, BlockRest, EndsInBlock, Pad;
    var p := c + Pad(c);
    BehindPad(crc, file, c);
    AtHeader(crc, file, p);
    var buffer := BlockRest(file, p);
    ParsedIsStored(crc, buffer, EndsInBlock(file, p));
    var (found, used) := ParseFragment(crc, buffer, EndsInBlock(file, p));
    PrefixOfRest(file, p, Header(crc, found.kind, found.payload) + found.payload);
  }

  /** And every one that lies there is read. */
  lemma StoredIsRead(crc: Checksum, file: seq<Byte>, c: nat, kind: Byte, payload: seq<Byte>)
    requires c <= |file| && StoredAt(crc, file, c + Pad(c), kind, payload) && (kind != ZERO || payload != [])
    ensures NextPhysical(crc, file, c) == (Fragment(kind, payload), c + Pad(c) + HEADER_SIZE + |payload|)
  {
    hide NextPhysical, Header, Pad;
    BehindPad(crc, file, c);
    UnpaddedWhole(crc, file, c + Pad(c), kind, payload);
  }

  lemma RestSlice(file: seq<Byte>, p: nat, i: nat, j: nat)
    requires p <= |file| && i <= j && p + j <= |file| && j <= Room(p)
    ensures j <= |BlockRest(file, p)| && BlockRest(file, p)[i..j] == file[p + i..p + j]
  {
    var end := Min(p + Room(p), |file|);
    assert BlockRest(file, p) == file[p..end] && p + j <= end;
    assert file[p..end][i..j] == file[p + i..p + j];
  }

  lemma DamagedHeader(crc: Checksum, file: seq<Byte>, p: nat)
    requires DamagedAt(crc, file, p) && HEADER_SIZE <= |BlockRest(file, p)|
    ensures ParseFragment(crc, BlockRest(file, p), EndsInBlock(file, p)) == (Bad(Some(|BlockRest(file, p)|)), |BlockRest(file, p)|)
  {
    hide BlockRest, EndsInBlock, Room, Mask, Unmask, EncodeFixed32, DecodeFixed32;
    var buffer, length := BlockRest(file, p), file[p + 4] as nat + file[p + 5] as nat * 256;
    RestSlice(file, p, 0, 4);
    RestSlice(file, p, 4, HEADER_SIZE);
    RestSlice(file, p, 6, HEADER_SIZE + length);
    assert buffer[4] == buffer[4..HEADER_SIZE][0] && buffer[5] == buffer[4..HEADER_SIZE][1] && buffer[6] == buffer[4..HEADER_SIZE][2];
    ChecksumBytes(buffer, crc(buffer[6..HEADER_SIZE + length]));
  }

  /** A fragment that fails its checksum is not handed over: the rest of its block is given up, and
      reported as lost. */
  lemma DamageIsReported(crc: Checksum, file: seq<Byte>, c: nat)
    requires c <= |file| && DamagedAt(crc, file, c + Pad(c))
    ensures var left := |BlockRest(file, c + Pad(c))|;
            NextPhysical(crc, file, c) == (Bad(Some(left)), c + Pad(c) + left)
  {
    var p := c + Pad(c);
    assert p + HEADER_SIZE <= |file| && HEADER_SIZE <= Room(p);
    hide *;
    BehindPad(crc, file, c);
    AtHeader(crc, file, p);
    DamagedHeader(crc, file, p);
  }

  // ----- Records -----

  function Joined(parts: seq<seq<Byte>>): seq<Byte> {
    if parts == [] then [] else parts[0] + Joined(parts[1..])
  }

  /** Where a fragment of `n` bytes ends that is laid down behind position `c`. */
  function Behind(c: nat, n: nat): nat {
    c + Pad(c) + HEADER_SIZE + n
  }

  /** The parts of a record lie in the file from position `c` up to `next`: fragments of the right types,
      one behind the other, each under its checksum. */
  ghost predicate StoredParts(crc: Checksum, file: seq<Byte>, c: nat, next: nat, begin: bool, parts: seq<seq<Byte>>)
    decreases |parts|
  {
    && parts != [] && c <= |file|
    && StoredAt(crc, file, c + Pad(c), FragmentType(begin, |parts| == 1), parts[0])
    && if |parts| == 1 then next == Behind(c, |parts[0]|)
       else StoredParts(crc, file, Behind(c, |parts[0]|), next, false, parts[1..])
  }

  ghost predicate StoredRecord(crc: Checksum, file: seq<Byte>, c: nat, next: nat, record: seq<Byte>) {
    exists parts :: StoredParts(crc, file, c, next, true, parts) && Joined(parts) == record
  }

  lemma StoredEnds(crc: Checksum, file: seq<Byte>, c: nat, begin: bool, end: bool, payload: seq<Byte>)
    requires c <= |file| && StoredAt(crc, file, c + Pad(c), FragmentType(begin, end), payload)
    ensures Behind(c, |payload|) <= |file| && FragmentType(begin, end) != ZERO
  {
  }

  lemma {:induction false} StoredPartsAreRead(crc: Checksum, file: seq<Byte>, c: nat, next: nat, begin: bool, parts: seq<seq<Byte>>,
                                              done: seq<Byte>)
    requires StoredParts(crc, file, c, next, begin, parts) && (begin ==> done == [])
    ensures c <= |file| && NextRecord(crc, file, c, !begin, done) == Reading(Some(done + Joined(parts)), next, [])
    decreases |parts|
  {
    hide NextPhysical, NextRecord, Pad, StoredAt, FragmentType;
    var end, payload := |parts| == 1, parts[0];
    var q := Behind(c, |payload|);
    StoredEnds(crc, file, c, begin, end, payload);
    StoredIsRead(crc, file, c, FragmentType(begin, end), payload);
    FragmentTaken(crc, file, c, begin, end, payload, done, q);
    if end {
      assert parts[1..] == [] && Joined(parts) == payload;
    } else {
      StoredPartsAreRead(crc, file, q, next, false, parts[1..], done + payload);
      assert done + payload + Joined(parts[1..]) == done + (payload + Joined(parts[1..]));
    }
  }

  /** A record that lies at the reader's position is the one that is read, however it was cut into
      fragments, and nothing is reported. */
  lemma StoredRecordIsRead(crc: Checksum, file: seq<Byte>, c: nat, next: nat, record: seq<Byte>)
    requires StoredRecord(crc, file, c, next, record)
    ensures c <= |file| && NextRecord(crc, file, c, false, []) == Reading(Some(record), next, [])
  {
    var parts :| StoredParts(crc, file, c, next, true, parts) && Joined(parts) == record;
    hide *;
    StoredPartsAreRead(crc, file, c, next, true, parts, []);
    assert [] + record == record;
  }

  /** A record that was read lies in the file behind the reader's position, or goes on there with what had
      been read of it before. */
  ghost predicate IsStored(crc: Checksum, file: seq<Byte>, c: nat, inRecord: bool, scratch: seq<Byte>, next: nat, record: seq<Byte>) {
    || (exists start :: c <= start && StoredRecord(crc, file, start, next, record))
    || (inRecord && exists parts :: StoredParts(crc, file, c, next, false, parts) && scratch + Joined(parts) == record)
  }

  lemma StoredFragment(crc: Checksum, file: seq<Byte>, c: nat, kind: Byte, payload: seq<Byte>, next: nat)
    requires c <= |file| && NextPhysical(crc, file, c) == (Fragment(kind, payload), next)
    requires kind == FULL || kind == LAST
    ensures StoredParts(crc, file, c, next, kind == FULL, [payload]) && Joined([payload]) == payload
  {
    hide NextPhysical;
    PhysicalIsStored(crc, file, c);
    hide *;
    OnePart(crc, file, c, kind == FULL, payload);
  }

  lemma OnePart(crc: Checksum, file: seq<Byte>, c: nat, begin: bool, payload: seq<Byte>)
    requires c <= |file| && StoredAt(crc, file, c + Pad(c), FragmentType(begin, true), payload)
    ensures StoredParts(crc, file, c, Behind(c, |payload|), begin, [payload]) && Joined([payload]) == payload
  {
    hide StoredAt, FragmentType, Pad;
    assert [payload][1..] == [];
  }

  lemma MoreParts(crc: Checksum, file: seq<Byte>, c: nat, next: nat, begin: bool, payload: seq<Byte>, parts: seq<seq<Byte>>)
    requires c <= |file| && StoredAt(crc, file, c + Pad(c), FragmentType(begin, false), payload)
    requires StoredParts(crc, file, Behind(c, |payload|), next, false, parts)
    ensures StoredParts(crc, file, c, next, begin, [payload] + parts) && Joined([payload] + parts) == payload + Joined(parts)
  {
    hide StoredAt, FragmentType, Pad;
    assert ([payload] + parts)[1..] == parts;
  }

  lemma DoneIsStored(crc: Checksum, file: seq<Byte>, c: nat, inRecord: bool, scratch: seq<Byte>, found: Physical, next: nat)
    requires c <= |file| && NextPhysical(crc, file, c) == (found, next) && !found.Eof?
    requires Assemble(found, inRecord, scratch).Done?
    ensures IsStored(crc, file, c, inRecord, scratch, next, Assemble(found, inRecord, scratch).record)
  {
    hide NextPhysical, StoredParts, Joined;
    StoredFragment(crc, file, c, found.kind, found.payload, next);
    assert found.kind == FULL ==> StoredRecord(crc, file, c, next, found.payload);
  }

  lemma MoreIsStored(crc: Checksum, file: seq<Byte>, c: nat, inRecord: bool, scratch: seq<Byte>, found: Physical, q: nat,
                     next: nat, record: seq<Byte>)
    requires c <= |file| && NextPhysical(crc, file, c) == (found, q) && !found.Eof? && c < q && (!inRecord ==> scratch == [])
    requires var a := Assemble(found, inRecord, scratch);
             a.More? && IsStored(crc, file, q, a.inRecord, a.scratch, next, record)
    ensures IsStored(crc, file, c, inRecord, scratch, next, record)
  {
    hide NextPhysical, StoredParts, Joined, StoredRecord, StoredAt, Pad;
    var a := Assemble(found, inRecord, scratch);
    if parts :| a.inRecord && StoredParts(crc, file, q, next, false, parts) && a.scratch + Joined(parts) == record {
      PhysicalIsStored(crc, file, c);
      MoreParts(crc, file, c, next, found.kind == FIRST, found.payload, parts);
      if found.kind == FIRST {
        PartsMakeRecord(crc, file, c, next, [found.payload] + parts);
      } else {
        assert scratch + found.payload + Joined(parts) == scratch + (found.payload + Joined(parts));
      }
    }
  }

  lemma PartsMakeRecord(crc: Checksum, file: seq<Byte>, c: nat, next: nat, parts: seq<seq<Byte>>)
    requires StoredParts(crc, file, c, next, true, parts)
    ensures StoredRecord(crc, file, c, next, Joined(parts))
  {
  }

  lemma {:induction false} RecordIsStored(crc: Checksum, file: seq<Byte>, c: nat, inRecord: bool, scratch: seq<Byte>)
    requires c <= |file| && (!inRecord ==> scratch == []) && NextRecord(crc, file, c, inRecord, scratch).record.Some?
    ensures var r := NextRecord(crc, file, c, inRecord, scratch);
            IsStored(crc, file, c, inRecord, scratch, r.next, r.record.value)
    decreases |file| - c
  {
    hide NextPhysical, IsStored;
    var (found, q) := NextPhysical(crc, file, c);
    var r := NextRecord(crc, file, c, inRecord, scratch);
    match Assemble(found, inRecord, scratch)
    case Done(_, _) =>
      DoneIsStored(crc, file, c, inRecord, scratch, found, q);
    case More(inRecord', scratch', _) =>
      RecordIsStored(crc, file, q, inRecord', scratch');
      MoreIsStored(crc, file, c, inRecord, scratch, found, q, r.next, r.record.value);
  }

  /** On any bytes: every record that is returned lies in the file, whole and under its checksums, and
      reading goes on right behind it. */
  lemma ReadRecordIsStored(crc: Checksum, file: seq<Byte>, c: nat)
    requires c <= |file| && NextRecord(crc, file, c, false, []).record.Some?
    ensures var r := NextRecord(crc, file, c, false, []);
            exists start :: c <= start && StoredRecord(crc, file, start, r.next, r.record.value)
  {
    RecordIsStored(crc, file, c, false, []);
  }

  // ----- Losses -----

  function Sum(drops: seq<nat>): nat {
    if drops == [] then 0 else drops[0] + Sum(drops[1..])
  }

  lemma {:induction false} SumConcat(a: seq<nat>, b: seq<nat>)
    ensures Sum(a + b) == Sum(a) + Sum(b)
  {
    if a == [] {
      assert a + b == b;
    } else {
      SumConcat(a[1..], b);
      assert (a + b)[1..] == a[1..] + b;
    }
  }

  /** Payload of a fragment, or the bytes given up with a bad one. */
  function Carried(found: Physical): nat {
    match found
    case Fragment(_, payload) => |payload|
    case Bad(drop) => if drop.Some? then drop.value else 0
    case Eof => 0
  }

  /** All that is read between two positions. */
  function Passed(crc: Checksum, file: seq<Byte>, c: nat, end: nat): nat
    requires c <= |file|
    decreases |file| - c
  {
    var (found, q) := NextPhysical(crc, file, c);
    if end <= c || found.Eof? then 0 else Carried(found) + Passed(crc, file, q, end)
  }

  lemma AssembleKeeps(found: Physical, inRecord: bool, scratch: seq<Byte>)
    requires !found.Eof? && (!inRecord ==> scratch == [])
    ensures var a := Assemble(found, inRecord, scratch);
            && Sum(Reported(found) + a.drops) + (if a.Done? then |a.record| else |a.scratch|) == |scratch| + Carried(found)
            && (a.More? && !a.inRecord ==> a.scratch == [])
  {
    SumConcat(Reported(found), Assemble(found, inRecord, scratch).drops);
    assert forall n: nat :: Sum([n]) == n;
  }

  /** On any bytes: what is read is in the record that is returned or reported as lost, to the byte.  Only
      a record that the end of the file cuts off goes without a report. */
  lemma {:induction false} NothingVanishes(crc: Checksum, file: seq<Byte>, c: nat, inRecord: bool, scratch: seq<Byte>)
    requires c <= |file| && (!inRecord ==> scratch == [])
    ensures var r := NextRecord(crc, file, c, inRecord, scratch);
            && (r.record.Some? ==> Sum(r.drops) + |r.record.value| == |scratch| + Passed(crc, file, c, r.next))
            && (r.record.None? ==> Sum(r.drops) <= |scratch| + Passed(crc, file, c, |file|))
    decreases |file| - c
  {
    hide NextPhysical, Assemble, Carried, Reported;
    var (found, q) := NextPhysical(crc, file, c);
    if !found.Eof? {
      AssembleKeeps(found, inRecord, scratch);
      var a := Assemble(found, inRecord, scratch);
      if a.More? {
        NothingVanishes(crc, file, q, a.inRecord, a.scratch);
        SumConcat(Reported(found) + a.drops, NextRecord(crc, file, q, a.inRecord, a.scratch).drops);
      }
    }
  }
}
