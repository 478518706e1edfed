/** Batches of updates as bytes: what `Write` appends to the log and recovery reads back. */
module WriteBatches {
  import opened Entries
  import opened Coding
  import opened Slices

  /** Eight bytes of sequence number and four of count come before the records. */
  const HEADER := 12

  const TYPE_DELETION: Byte := 0
  const TYPE_VALUE: Byte := 1

  datatype Op = Put(key: Bytes, value: Bytes) | Delete(key: Bytes)

  predicate Short(b: Bytes) {
    |b| < 0x1_0000_0000
  }

  /** Lengths are written as 32-bit numbers. */
  predicate GoodOp(o: Op) {
    Short(o.key) && (o.Put? ==> Short(o.value))
  }

  /** The count is a signed 32-bit number. */
  ghost predicate GoodOps(ops: seq<Op>) {
    |ops| < 0x8000_0000 && forall i :: 0 <= i < |ops| ==> GoodOp(ops[i])
  }

  function OpBytes(o: Op): (r: Bytes)
    ensures r != []
  {
    match o
    case Put(key, value) => [TYPE_VALUE] + (PutString(key) + PutString(value))
    case Delete(key) => [TYPE_DELETION] + PutString(key)
  }

  function Records(ops: seq<Op>): Bytes {
    if ops == [] then [] else OpBytes(ops[0]) + Records(ops[1..])
  }

  // ----- The header -----

  function Header(seqno: nat, count: Uint32): (r: Bytes)
    requires seqno < TWO_64
    ensures |r| == HEADER
  {
    EncodeFixed64(seqno) + EncodeFixed32(count)
  }

  lemma HeaderBack(seqno: nat, count: Uint32, rest: Bytes)
    requires seqno < TWO_64
    ensures DecodeFixed64(Header(seqno, count) + rest) == seqno
    ensures DecodeFixed32((Header(seqno, count) + rest)[8..]) == count
    ensures (Header(seqno, count) + rest)[HEADER..] == rest
  {
    var n, all := EncodeFixed32(count), Header(seqno, count) + rest;
    assert all == EncodeFixed64(seqno) + (n + rest) && all[8..] == n + rest;
    Fixed64RoundTrip(seqno, n + rest);
    DecodeEncodeFixed32(count, rest);
    hide EncodeFixed32, DecodeFixed32, EncodeFixed64, DecodeFixed64;
  }

  /** The bytes of a batch. */
  function Rep(seqno: nat, ops: seq<Op>): (r: Bytes)
    requires seqno < TWO_64 && |ops| < 0x8000_0000
    ensures |r| >= HEADER
  {
    Header(seqno, |ops|) + Records(ops)
  }

  // ----- Reading -----

  function GetOp(b: Bytes): (r: Option<Taken<Op>>)
    requires b != []
    ensures r.Some? ==> |r.value.rest| < |b|
  {
    if b[0] == TYPE_VALUE then
      match GetString(b[1..])
      case None => None
      case Some(key) =>
        match GetString(key.rest)
        case None => None
        case Some(value) => Some(Taken(Put(key.v, value.v), value.rest))
    else if b[0] == TYPE_DELETION then
      match GetString(b[1..])
      case None => None
      case Some(key) => Some(Taken(Delete(key.v), key.rest))
    else None
  }

  /** The updates handed to the handler, and whether all of the input was made of updates. */
  function ReadOps(b: Bytes): (seq<Op>, bool)
    decreases |b|
  {
    if b == [] then ([], true)
    else
      match GetOp(b)
      case None => ([], false)
      case Some(t) =>
        var more := ReadOps(t.rest);
        ([t.v] + more.0, more.1)
  }

  /** What the handler is given and whether the batch is found to be in order.  The count is only
      looked at in the end, when every update has been handed over. */
  function Iterated(rep: Bytes): (seq<Op>, bool) {
    if |rep| < HEADER then ([], false)
    else
      var r := ReadOps(rep[HEADER..]);
      (r.0, r.1 && |r.0| == DecodeFixed32(rep[8..]))
  }

  lemma OpBack(o: Op, rest: Bytes)
    requires GoodOp(o)
    ensures GetOp(OpBytes(o) + rest) == Some(Taken(o, rest))
  {
    hide GetString, PutString;
    match o
    case Put(key, value) =>
      assert OpBytes(o) + rest == [TYPE_VALUE] + (PutString(key) + (PutString(value) + rest));
      StringBack(key, PutString(value) + rest);
      StringBack(value, rest);
    case Delete(key) =>
      assert OpBytes(o) + rest == [TYPE_DELETION] + (PutString(key) + rest);
      StringBack(key, rest);
  }

  lemma ReadOne(b: Bytes, o: Op, rest: Bytes)
    requires b != [] && GetOp(b) == Some(Taken(o, rest))
    ensures ReadOps(b) == ([o] + ReadOps(rest).0, ReadOps(rest).1)
  {
  }

  lemma {:induction false} RecordsBack(ops: seq<Op>)
    requires forall i :: 0 <= i < |ops| ==> GoodOp(ops[i])
    ensures ReadOps(Records(ops)) == (ops, true)
  {
    if ops == [] {
      assert Records(ops) == [];
    } else {
      hide OpBytes, GetOp;
      var rest := Records(ops[1..]);
      OpBack(ops[0], rest);
      ReadOne(Records(ops), ops[0], rest);
      RecordsBack(ops[1..]);
      hide ReadOps, Records;
      assert [ops[0]] + ops[1..] == ops;
    }
  }

  /** A batch is read back whole. */
  lemma BatchRoundTrip(seqno: nat, ops: seq<Op>)
    requires seqno < TWO_64 && GoodOps(ops)
    ensures Iterated(Rep(seqno, ops)) == (ops, true)
  {
    HeaderBack(seqno, |ops|, Records(ops));
    RecordsBack(ops);
    hide ReadOps, Records, Header, DecodeFixed32;
  }

  // ----- Cut batches -----

  lemma {:induction false} CutVarint(v: nat, k: nat, max: nat)
    requires k < |EncodeVarint(v)|
    ensures DecodeVarint(EncodeVarint(v)[..k], max) == None
    decreases k
  {
    if k > 0 && max > 0 {
      assert EncodeVarint(v)[..k][1..] == EncodeVarint(v / 128)[..k - 1];
      CutVarint(v / 128, k - 1, max - 1);
    }
  }

  lemma CutString(s: Bytes, k: nat)
    requires Short(s) && k < |PutString(s)|
    ensures GetString(PutString(s)[..k]) == None
  {
    var n := |EncodeVarint(|s|)|;
    if k < n {
      assert PutString(s)[..k] == EncodeVarint(|s|)[..k];
      CutVarint(|s|, k, MAX_VARINT32_BYTES);
    } else {
      assert PutString(s)[..k] == EncodeVarint(|s|) + s[..k - n];
      Varint32Back(|s|, s[..k - n]);
      hide GetVarint32, EncodeVarint;
    }
  }

  lemma CutOp(o: Op, k: nat)
    requires GoodOp(o) && 0 < k < |OpBytes(o)|
    ensures GetOp(OpBytes(o)[..k]) == None
  {
    hide GetString, PutString;
    var b, a := OpBytes(o)[..k], PutString(o.key);
    if k - 1 < |a| {
      assert b[1..] == a[..k - 1];
      CutString(o.key, k - 1);
    } else {
      var z := PutString(o.value);
      assert b[1..] == a + z[..k - 1 - |a|];
      StringBack(o.key, z[..k - 1 - |a|]);
      CutString(o.value, k - 1 - |a|);
    }
  }

  /** Updates handed over before the cut: the first ones, and not all of them. */
  predicate HandedSome(handed: seq<Op>, ops: seq<Op>) {
    |handed| < |ops| && handed == ops[..|handed|]
  }

  lemma HandedOneMore(handed: seq<Op>, ops: seq<Op>)
    requires ops != [] && HandedSome(handed, ops[1..])
    ensures HandedSome([ops[0]] + handed, ops)
  {
  }

  lemma CutInFirst(ops: seq<Op>, k: nat)
    requires ops != [] && GoodOp(ops[0]) && k < |OpBytes(ops[0])|
    ensures k <= |Records(ops)| && HandedSome(ReadOps(Records(ops)[..k]).0, ops)
  {
    var first := OpBytes(ops[0]);
    assert Records(ops)[..k] == first[..k];
    if k > 0 {
      CutOp(ops[0], k);
    }
    hide OpBytes, GetOp, Records;
  }

  lemma CutAfterFirst(ops: seq<Op>, k: nat)
    requires ops != [] && |OpBytes(ops[0])| <= k <= |Records(ops)|
    ensures k - |OpBytes(ops[0])| <= |Records(ops[1..])|
    ensures Records(ops)[..k] == OpBytes(ops[0]) + Records(ops[1..])[..k - |OpBytes(ops[0])|]
  {
    hide OpBytes;
  }

  /** Of cut records, only those before the cut are handed over, and some are missing. */
  lemma {:induction false} CutRecords(ops: seq<Op>, k: nat)
    requires k < |Records(ops)| && forall i :: 0 <= i < |ops| ==> GoodOp(ops[i])
    ensures HandedSome(ReadOps(Records(ops)[..k]).0, ops)
    decreases |ops|
  {
    assert ops != [] && |Records(ops)| == |OpBytes(ops[0])| + |Records(ops[1..])|;
    hide *;
    var n := |OpBytes(ops[0])|;
    if k < n {
      CutInFirst(ops, k);
    } else {
      var rest := Records(ops[1..])[..k - n];
      CutAfterFirst(ops, k);
      OpBack(ops[0], rest);
      ReadOne(Records(ops)[..k], ops[0], rest);
      CutRecords(ops[1..], k - n);
      HandedOneMore(ReadOps(rest).0, ops);
    }
  }

  /** A cut behind the header leaves the count in place. */
  lemma CutBehindHeader(seqno: nat, ops: seq<Op>, k: nat)
    requires seqno < TWO_64 && |ops| < 0x8000_0000 && HEADER <= k <= |Rep(seqno, ops)|
    ensures k - HEADER <= |Records(ops)|
    ensures var cut := Rep(seqno, ops)[..k];
            && cut[HEADER..] == Records(ops)[..k - HEADER]
            && DecodeFixed32(cut[8..]) == |ops|
  {
    hide Header, DecodeFixed32, Records;
    var rest := Records(ops)[..k - HEADER];
    assert Rep(seqno, ops)[..k] == Header(seqno, |ops|) + rest;
    HeaderBack(seqno, |ops|, rest);
  }

  /** The count gives away that updates are missing. */
  lemma CountTells(rep: Bytes, ops: seq<Op>)
    requires |rep| >= HEADER && DecodeFixed32(rep[8..]) == |ops| && HandedSome(ReadOps(rep[HEADER..]).0, ops)
    ensures !Iterated(rep).1 && HandedSome(Iterated(rep).0, ops)
  {
    hide DecodeFixed32, ReadOps;
  }

  /** A batch that has lost any of its tail is always found out, though by then a part of its
      updates may have been handed over. */
  lemma CutBatchIsCorrupt(seqno: nat, ops: seq<Op>, k: nat)
    requires seqno < TWO_64 && GoodOps(ops) && k < |Rep(seqno, ops)|
    ensures var r := Iterated(Rep(seqno, ops)[..k]); !r.1 && r.0 <= ops
  {
    if k >= HEADER {
      assert |Rep(seqno, ops)| == HEADER + |Records(ops)|;
      assert forall i :: 0 <= i < |ops| ==> GoodOp(ops[i]);
      hide *;
      CutBehindHeader(seqno, ops, k);
      CutRecords(ops, k - HEADER);
      CountTells(Rep(seqno, ops)[..k], ops);
    }
  }

  // ----- The batch -----

  lemma {:induction false} RecordsConcat(a: seq<Op>, b: seq<Op>)
    ensures Records(a + b) == Records(a) + Records(b)
  {
    hide OpBytes;
    if a == [] {
      assert a + b == b;
    } else {
      assert (a + b)[1..] == a[1..] + b;
      RecordsConcat(a[1..], b);
      Assoc(OpBytes(a[0]), Records(a[1..]), Records(b));
    }
  }

  lemma OneRecord(o: Op)
    ensures Records([o]) == OpBytes(o)
  {
    assert [o][1..] == [];
    assert OpBytes(o) + [] == OpBytes(o);
  }

  /** One update of a batch with the sequence number it is inserted under. */
  datatype Numbered = Numbered(seqno: nat, op: Op)

  function NumberedFrom(first: nat, ops: seq<Op>): seq<Numbered> {
    seq(|ops|, i requires 0 <= i < |ops| => Numbered(first + i, ops[i]))
  }

  method Number(first: nat, ops: seq<Op>) returns (r: seq<Numbered>)
    ensures r == NumberedFrom(first, ops)
  {
    var sequence := first;
    r := [];
    for i := 0 to |ops|
      invariant sequence == first + i && r == NumberedFrom(first, ops[..i])
    {
      r := r + [Numbered(sequence, ops[i])];
      sequence := sequence + 1;
    }
    assert ops[..|ops|] == ops;
  }

  class WriteBatch {
    var rep: Bytes
    ghost var seqno: nat
    ghost var ops: seq<Op>

    ghost predicate Valid()
      reads this
    {
      seqno < TWO_64 && GoodOps(ops) && rep == Rep(seqno, ops)
    }

    constructor ()
      ensures Valid() && seqno == 0 && ops == []
    {
      rep := [0, 0, 0, 0, 0, 0, 0, 0, 0, 0, 0, 0];
      seqno, ops := 0, [];
    }

    method Count() returns (n: nat)
      requires |rep| >= HEADER
      ensures n == DecodeFixed32(rep[8..])
    {
      n := DecodeFixed32(rep[8..]);
    }

    method SetCount(n: Uint32)
      requires Valid()
      modifies this`rep
      ensures rep == Header(seqno, n) + Records(ops)
    {
      rep := rep[..8] + EncodeFixed32(n) + rep[HEADER..];
      assert rep[..8] == EncodeFixed64(seqno) && rep[HEADER..] == Records(ops);
    }

    method SetSequence(n: nat)
      requires Valid() && n < TWO_64
      modifies this
      ensures Valid() && seqno == n && ops == old(ops)
    {
      hide Records, EncodeFixed32, EncodeFixed64;
      assert rep[8..] == EncodeFixed32(|ops|) + Records(ops);
      rep := EncodeFixed64(n) + rep[8..];
      seqno := n;
      assert rep == EncodeFixed64(n) + (EncodeFixed32(|ops|) + Records(ops));
    }

    /** Counts one more update and appends its record. */
    method Add(o: Op)
      requires Valid() && GoodOp(o) && |ops| + 1 < 0x8000_0000
      modifies this
      ensures Valid() && seqno == old(seqno) && ops == old(ops) + [o]
    {
      hide Records, OpBytes, Header, DecodeFixed32;
      HeaderBack(seqno, |ops|, Records(ops));
      var count := Count();
      SetCount(count + 1);
      rep := rep + OpBytes(o);
      RecordsConcat(ops, [o]);
      OneRecord(o);
      Assoc(Header(seqno, |ops| + 1), Records(ops), OpBytes(o));
      ops := ops + [o];
    }

    method Put(key: Bytes, value: Bytes)
      requires Valid() && Short(key) && Short(value) && |ops| + 1 < 0x8000_0000
      modifies this
      ensures Valid() && seqno == old(seqno) && ops == old(ops) + [Op.Put(key, value)]
    {
      Add(Op.Put(key, value));
    }

    method Delete(key: Bytes)
      requires Valid() && Short(key) && |ops| + 1 < 0x8000_0000
      modifies this
      ensures Valid() && seqno == old(seqno) && ops == old(ops) + [Op.Delete(key)]
    {
      Add(Op.Delete(key));
    }

    /** Appending a batch to one that has been numbered keeps the number of the first. */
    method Append(src: WriteBatch)
      requires Valid() && src.Valid() && src != this && |ops| + |src.ops| < 0x8000_0000
      modifies this
      ensures Valid() && seqno == old(seqno) && ops == old(ops) + src.ops
    {
      hide Records, Header, DecodeFixed32;
      HeaderBack(seqno, |ops|, Records(ops));
      HeaderBack(src.seqno, |src.ops|, Records(src.ops));
      var count := Count();
      var more := src.Count();
      SetCount(count + more);
      rep := rep + src.rep[HEADER..];
      RecordsConcat(ops, src.ops);
      Assoc(Header(seqno, |ops| + |src.ops|), Records(ops), Records(src.ops));
      ops := ops + src.ops;
    }

    method Iterate() returns (handed: seq<Op>, ok: bool)
      ensures (handed, ok) == Iterated(rep)
    {
      handed := [];
      if |rep| < HEADER {
        return [], false;
      }
      var input := rep[HEADER..];
      var none: seq<Op> := [];
      assert none + ReadOps(input).0 == ReadOps(input).0;
      hide GetOp, DecodeFixed32;
      while input != []
        invariant ReadOps(rep[HEADER..]) == (handed + ReadOps(input).0, ReadOps(input).1)
        decreases |input|
      {
        var t := GetOp(input);
        if t.None? {
          assert handed + [] == handed;
          return handed, false;
        }
        assert handed + ([t.value.v] + ReadOps(t.value.rest).0) == handed + [t.value.v] + ReadOps(t.value.rest).0;
        handed, input := handed + [t.value.v], t.value.rest;
      }
      assert handed + [] == handed;
      ok := |handed| == DecodeFixed32(rep[8..]);
    }

    /** The updates reach the memtable in order, numbered from the sequence number of the batch;
        those before a corruption have been added when it is found. */
    method InsertInto() returns (added: seq<Numbered>, ok: bool)
      requires |rep| >= HEADER
      ensures added == NumberedFrom(DecodeFixed64(rep), Iterated(rep).0) && ok == Iterated(rep).1
      ensures Valid() ==> ok && added == NumberedFrom(seqno, ops)
      ensures Valid() ==> |added| == |ops| && forall i :: 0 <= i < |ops| ==> added[i].seqno == seqno + i && added[i].op == ops[i]
    {
      var sequence := DecodeFixed64(rep);
      var handed;
      handed, ok := Iterate();
      added := Number(sequence, handed);
      hide NumberedFrom, Records, ReadOps;
      if Valid() {
        HeaderBack(seqno, |ops|, Records(ops));
        BatchRoundTrip(seqno, ops);
      }
    }
  }

  /** A group of batches is numbered as its members would be one after the other. */
  lemma AppendNumbers(first: nat, a: seq<Op>, b: seq<Op>)
    ensures NumberedFrom(first, a + b) == NumberedFrom(first, a) + NumberedFrom(first + |a|, b)
  {
  }
}
