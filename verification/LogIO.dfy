/** The objects that write and read a log, proved against its format. */
module LogIO {
  import opened Coding
  import opened Entries
  import opened LogFormat
  import LogIntegrity

  /** Two positions in step with the blocks stay in step. */
  lemma KeepsStep(a: nat, b: nat, k: nat)
    requires a % BLOCK_SIZE == b % BLOCK_SIZE
    ensures (a + k) % BLOCK_SIZE == (b + k) % BLOCK_SIZE
  {
    var r := a % BLOCK_SIZE;
    assert a + k == a / BLOCK_SIZE * BLOCK_SIZE + (r + k) && b + k == b / BLOCK_SIZE * BLOCK_SIZE + (r + k);
  }

  class Writer {
    const crc: Checksum
    /** Contents of the file so far. */
    var dest: seq<Byte>
    var blockOffset: nat

    predicate Valid()
      reads this
    {
      blockOffset <= BLOCK_SIZE && blockOffset % BLOCK_SIZE == |dest| % BLOCK_SIZE
    }

    /** Appending to a file that may have contents already. */
    constructor (crc_: Checksum, contents: seq<Byte>)
      ensures Valid() && dest == contents && crc == crc_
    {
      crc, dest := crc_, contents;
      blockOffset := |contents| % BLOCK_SIZE;
    }

    method EmitPhysicalRecord(kind: Byte, payload: seq<Byte>)
      requires Valid() && blockOffset + HEADER_SIZE + |payload| <= BLOCK_SIZE
      modifies this
      ensures Valid() && dest == old(dest) + Header(crc, kind, payload) + payload
      ensures blockOffset == old(blockOffset) + HEADER_SIZE + |payload|
    {
      hide Header;
      KeepsStep(blockOffset, |dest|, HEADER_SIZE + |payload|);
      dest := dest + Header(crc, kind, payload) + payload;
      blockOffset := blockOffset + HEADER_SIZE + |payload|;
    }

    /** Leaves a block that has no room for a header. */
    method SwitchBlock()
      requires Valid()
      modifies this
      ensures Valid() && dest == old(dest) + Zeros(Pad(|old(dest)|))
      ensures BLOCK_SIZE - blockOffset == Room(|dest|) && blockOffset + HEADER_SIZE <= BLOCK_SIZE
    {
      var leftover := BLOCK_SIZE - blockOffset;
      if leftover < HEADER_SIZE {
        if leftover > 0 {
          dest := dest + Zeros(leftover);
        }
        blockOffset := 0;
      }
      assert dest == old(dest) + Zeros(Pad(|old(dest)|));
    }

    /** One turn of the fragment loop. */
    method AddFragment(left: seq<Byte>, begin: bool) returns (n: nat)
      requires Valid()
      modifies this
      ensures Valid() && n == FragmentLength(|old(dest)|, |left|)
      ensures dest == old(dest) + FragmentBytes(crc, |old(dest)|, FragmentType(begin, n == |left|), left[..n])
    {
      SwitchBlock();
      var avail := BLOCK_SIZE - blockOffset - HEADER_SIZE;
      n := if |left| < avail then |left| else avail;
      var end := |left| == n;
      var kind := if begin && end then FULL else if begin then FIRST else if end then LAST else MIDDLE;
      EmitPhysicalRecord(kind, left[..n]);
    }

    method AddRecord(data: seq<Byte>)
      requires Valid()
      modifies this
      ensures Valid() && dest == old(dest) + RecordBytes(crc, |old(dest)|, data, true)
    {
      var left, begin, done := data, true, false;
      while !done
        invariant Valid()
        invariant !done ==> dest + RecordBytes(crc, |dest|, left, begin) == old(dest) + RecordBytes(crc, |old(dest)|, data, true)
        invariant done ==> dest == old(dest) + RecordBytes(crc, |old(dest)|, data, true)
        decreases !done, |left|, if |dest| % BLOCK_SIZE == BLOCK_SIZE - HEADER_SIZE then 1 else 0
      {
        hide FragmentBytes, FragmentLength, Pad;
        ghost var before := dest;
        var n := AddFragment(left, begin);
        UnfoldRecord(crc, before, dest, left, begin, n);
        if n < |left| {
          FragmentDecreases(|before|, |left|, n, |dest|);
        }
        left := left[n..];
        begin := false;
        done := left == [];
      }
    }
  }

  /** What one turn of the loop leaves to be written. */
  lemma UnfoldRecord(crc: Checksum, before: seq<Byte>, after: seq<Byte>, left: seq<Byte>, begin: bool, n: nat)
    requires n == FragmentLength(|before|, |left|)
    requires |after| == |before| + Pad(|before|) + HEADER_SIZE + n
    requires after == before + FragmentBytes(crc, |before|, FragmentType(begin, n == |left|), left[..n])
    ensures before + RecordBytes(crc, |before|, left, begin) ==
            if n == |left| then after else after + RecordBytes(crc, |after|, left[n..], false)
  {
    hide FragmentBytes, FragmentLength, Pad, FragmentType;
    var fragment := FragmentBytes(crc, |before|, FragmentType(begin, n == |left|), left[..n]);
    if n < |left| {
      var rest := RecordBytes(crc, |after|, left[n..], false);
      assert before + (fragment + rest) == before + fragment + rest;
    }
  }

  lemma SkipRest(crc: Checksum, file: seq<Byte>, c: nat)
    requires c <= |file| && |BlockRest(file, c)| < HEADER_SIZE && !EndsInBlock(file, c)
    ensures NextPhysical(crc, file, c) == NextPhysical(crc, file, c + Room(c))
  {
  }

  lemma AtEnd(crc: Checksum, file: seq<Byte>, c: nat)
    requires |file| < c + HEADER_SIZE && c <= |file| && (c == |file| || EndsInBlock(file, c))
    ensures NextPhysical(crc, file, c) == (Eof, |file|)
  {
  }

  lemma AtFragment(crc: Checksum, file: seq<Byte>, c: nat)
    requires c <= |file| && HEADER_SIZE <= |BlockRest(file, c)|
    ensures var (found, used) := ParseFragment(crc, BlockRest(file, c), EndsInBlock(file, c));
            NextPhysical(crc, file, c) == (found, c + used)
  {
  }

  class Reader {
    const crc: Checksum
    const file: seq<Byte>
    /** What has been read from the file but not yet used. */
    var buffer: seq<Byte>
    var eof: bool
    var endOfBufferOffset: nat
    /** Losses reported so far, in bytes. */
    var drops: seq<nat>

    /** The buffer is the rest of one block. */
    predicate Valid()
      reads this
    {
      && |buffer| <= endOfBufferOffset <= |file|
      && (eof ==> endOfBufferOffset == |file|)
      && (!eof ==> endOfBufferOffset % BLOCK_SIZE == 0)
      && (buffer != [] ==> buffer == BlockRest(file, endOfBufferOffset - |buffer|))
      && (buffer != [] ==> (eof <==> EndsInBlock(file, endOfBufferOffset - |buffer|)))
    }

    /** How far the file is used up. */
    function Position(): (c: nat)
      requires Valid()
      reads this
      ensures c <= |file|
    {
      endOfBufferOffset - |buffer|
    }

    constructor (crc_: Checksum, contents: seq<Byte>)
      ensures Valid() && Position() == 0 && drops == [] && crc == crc_ && file == contents
    {
      crc, file := crc_, contents;
      buffer, eof, endOfBufferOffset, drops := [], false, 0, [];
    }

    /** Reads the next block. */
    method Refill()
      requires Valid() && |buffer| < HEADER_SIZE && !eof
      modifies this`buffer, this`eof, this`endOfBufferOffset
      ensures Valid() && endOfBufferOffset >= old(endOfBufferOffset) && (eof || endOfBufferOffset > old(endOfBufferOffset))
      ensures NextPhysical(crc, file, Position()) == NextPhysical(crc, file, old(Position()))
    {
      hide NextPhysical;
      ghost var c := Position();
      var n := if |file| - endOfBufferOffset < BLOCK_SIZE then |file| - endOfBufferOffset else BLOCK_SIZE;
      buffer := file[endOfBufferOffset..endOfBufferOffset + n];
      endOfBufferOffset := endOfBufferOffset + n;
      if |buffer| < BLOCK_SIZE {
        eof := true;
      }
      if c != Position() {
        SkipRest(crc, file, c);
      }
    }

    /** Reads the fragment at the head of the buffer. */
    method ParseBuffer() returns (found: Physical)
      requires Valid() && HEADER_SIZE <= |buffer|
      modifies this`buffer, this`drops
      ensures Valid() && (found, |old(buffer)| - |buffer|) == ParseFragment(crc, old(buffer), eof)
      ensures drops == old(drops) + Reported(found)
    {
      hide Unmask, DecodeFixed32;
      var low: nat, high: nat := buffer[4], buffer[5];
      var length := low + high * 256;
      var kind := buffer[6];
      var dropSize := |buffer|;
      if HEADER_SIZE + length > |buffer| {
        buffer := [];
        if !eof {
          drops := drops + [dropSize];
          return Bad(Some(dropSize));
        }
        return Eof;
      }
      if kind == ZERO && length == 0 {
        buffer := [];
        return Bad(None);
      }
      if Unmask(DecodeFixed32(buffer)) != crc(buffer[6..HEADER_SIZE + length]) {
        buffer := [];
        drops := drops + [dropSize];
        return Bad(Some(dropSize));
      }
      found := Fragment(kind, buffer[HEADER_SIZE..HEADER_SIZE + length]);
      RestOfRest(file, endOfBufferOffset - |buffer|, HEADER_SIZE + length);
      buffer := buffer[HEADER_SIZE + length..];
    }

    /** Makes sure that there is a header to look at, unless the file is at its end. */
    method FillBuffer() returns (more: bool)
      requires Valid()
      modifies this`buffer, this`eof, this`endOfBufferOffset
      ensures Valid() && (more ==> HEADER_SIZE <= |buffer|)
      ensures more ==> NextPhysical(crc, file, Position()) == NextPhysical(crc, file, old(Position()))
      ensures !more ==> NextPhysical(crc, file, old(Position())) == (Eof, |file|) && Position() == |file|
    {
      while |buffer| < HEADER_SIZE
        invariant Valid()
        invariant NextPhysical(crc, file, Position()) == NextPhysical(crc, file, old(Position()))
        decreases |file| - endOfBufferOffset, !eof
      {
        hide NextPhysical, EndsInBlock, BlockRest;
        if eof {
          AtEnd(crc, file, Position());
          buffer := [];
          return false;
        }
        Refill();
      }
      more := true;
    }

    method ReadPhysicalRecord() returns (found: Physical)
      requires Valid()
      modifies this`buffer, this`eof, this`endOfBufferOffset, this`drops
      ensures Valid() && (found, Position()) == NextPhysical(crc, file, old(Position()))
      ensures drops == old(drops) + Reported(found)
      ensures Checked(old(Position()), old(drops), found)
    {
      hide NextPhysical, ParseFragment, EndsInBlock, BlockRest, Checked;
      ghost var c, before := Position(), drops;
      var more := FillBuffer();
      if !more {
        found := Eof;
        IsChecked(c, before, found);
        return;
      }
      AtFragment(crc, file, Position());
      found := ParseBuffer();
      IsChecked(c, before, found);
    }

    /** A fragment that is handed over lies in the file under its checksum, right in front of the new
        position; of one that fails its checksum the rest of the block is reported as lost. */
    ghost predicate Checked(c: nat, before: seq<nat>, found: Physical)
      reads this
    {
      var p := c + Pad(c);
      && (found.Fragment? ==>
            && LogIntegrity.StoredAt(crc, file, p, found.kind, found.payload)
            && endOfBufferOffset - |buffer| == p + HEADER_SIZE + |found.payload|)
      && (LogIntegrity.DamagedAt(crc, file, p) ==>
            && found.Bad?
            && drops == before + [|BlockRest(file, p)|])
    }

    lemma IsChecked(c: nat, before: seq<nat>, found: Physical)
      requires Valid() && c <= |file| && (found, Position()) == NextPhysical(crc, file, c) && drops == before + Reported(found)
      ensures Checked(c, before, found)
    {
      if found.Fragment? {
        LogIntegrity.PhysicalIsStored(crc, file, c);
      }
      if LogIntegrity.DamagedAt(crc, file, c + Pad(c)) {
        LogIntegrity.DamageIsReported(crc, file, c);
      }
    }

    /** Puts one fragment to the record being read. */
    method Take(found: Physical, inRecord: bool, scratch: seq<Byte>) returns (result: Assembly)
      requires !found.Eof?
      modifies this`drops
      ensures result == Assemble(found, inRecord, scratch) && drops == old(drops) + result.drops
    {
      match found
      case Bad(_) =>
        result := More(false, scratch, []);
        if inRecord {
          drops := drops + [|scratch|];
          result := More(false, [], [|scratch|]);
        }
      case Fragment(kind, payload) =>
        if kind == FULL || kind == FIRST {
          var lost := [];
          if inRecord && scratch != [] {
            lost := [|scratch|];
            drops := drops + lost;
          }
          result := if kind == FULL then Done(payload, lost) else More(true, payload, lost);
        } else if (kind == MIDDLE || kind == LAST) && !inRecord {
          drops := drops + [|payload|];
          result := More(false, scratch, [|payload|]);
        } else if kind == MIDDLE {
          result := More(true, scratch + payload, []);
        } else if kind == LAST {
          result := Done(scratch + payload, []);
        } else {
          var lost := [|payload| + if inRecord then |scratch| else 0];
          drops := drops + lost;
          result := More(false, [], lost);
        }
    }

    /** One turn of the reading loop. */
    method ReadFragment(inRecord: bool, scratch: seq<Byte>) returns (result: Option<Assembly>)
      requires Valid()
      modifies this`buffer, this`eof, this`endOfBufferOffset, this`drops
      ensures Valid()
      ensures var (found, next) := NextPhysical(crc, file, old(Position()));
              && Position() == next
              && if found.Eof? then result == None && drops == old(drops)
                 else result == Some(Assemble(found, inRecord, scratch)) && drops == old(drops) + (Reported(found) + result.value.drops)
    {
      hide NextPhysical, Assemble, BlockRest, EndsInBlock;
      var found := ReadPhysicalRecord();
      if found.Eof? {
        return None;
      }
      var assembly := Take(found, inRecord, scratch);
      result := Some(assembly);
    }

    /** Reads the next logical record; the losses met on the way are reported. */
    method ReadRecord() returns (record: Option<seq<Byte>>)
      requires Valid()
      modifies this`buffer, this`eof, this`endOfBufferOffset, this`drops
      ensures Valid()
      ensures var r := NextRecord(crc, file, old(Position()), false, []);
              record == r.record && Position() == r.next && drops == old(drops) + r.drops
      ensures record.Some? ==> exists start :: old(Position()) <= start
                                 && LogIntegrity.StoredRecord(crc, file, start, Position(), record.value)
      ensures record.Some? ==> exists lost :: drops == old(drops) + lost
                                 && LogIntegrity.Sum(lost) + |record.value| == LogIntegrity.Passed(crc, file, old(Position()), Position())
    {
      hide NextPhysical, Assemble, BlockRest, EndsInBlock, LogIntegrity.StoredRecord, LogIntegrity.Sum, LogIntegrity.Passed;
      var inRecord, scratch: seq<Byte> := false, [];
      ghost var whole := NextRecord(crc, file, Position(), false, []);
      LogIntegrity.NothingVanishes(crc, file, Position(), false, []);
      if whole.record.Some? {
        LogIntegrity.ReadRecordIsStored(crc, file, Position());
      }
      while true
        invariant Valid()
        invariant Remains(NextRecord(crc, file, Position(), inRecord, scratch), whole, drops, old(drops))
        decreases |file| - Position()
      {
        var result := ReadFragment(inRecord, scratch);
        match result
        case None =>
          return None;
        case Some(Done(r, _)) =>
          return Some(r);
        case Some(More(inRecord', scratch', _)) =>
          inRecord, scratch := inRecord', scratch';
      }
    }
  }

  /** What is still to be read completes what was to be read at first. */
  ghost predicate Remains(rest: Reading, whole: Reading, drops: seq<nat>, first: seq<nat>) {
    rest.record == whole.record && rest.next == whole.next && drops + rest.drops == first + whole.drops
  }

  /** Using up part of a block leaves the rest of the same block. */
  lemma RestOfRest(file: seq<Byte>, c: nat, used: nat)
    requires c <= |file| && used <= |BlockRest(file, c)|
    ensures used < |BlockRest(file, c)| ==>
              BlockRest(file, c + used) == BlockRest(file, c)[used..] && (EndsInBlock(file, c + used) <==> EndsInBlock(file, c))
  {
  }
}
