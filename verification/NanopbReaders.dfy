/** What a reader makes of bytes that its own descriptor did not write: unknown fields are passed over,
    missing ones keep their defaults, a missing required one is an error, and whatever is decoded from
    any bytes at all fits the memory that was set aside for it. */
module NanopbReaders {
  import opened Entries
  import opened Coding
  import opened Nanopb

  // ----- Unknown fields -----

  predicate HasTag(fields: seq<Field>, tag: nat) {
    exists i :: 0 <= i < |fields| && fields[i].tag == tag
  }

  lemma {:induction false} SkipEncodedVarint(v: nat, rest: seq<Byte>)
    ensures SkipVarint(EncodeVarint(v) + rest) == Some(rest)
  {
    var b := EncodeVarint(v) + rest;
    if v < 128 {
      assert b[1..] == rest;
    } else {
      SkipEncodedVarint(v / 128, rest);
      assert b[1..] == EncodeVarint(v / 128) + rest;
    }
  }

  /** Skipping by wire type passes over exactly the bytes of a value. */
  lemma SkipValue(k: DataType, v: Value, rest: seq<Byte>)
    requires GoodType(k) && FitsValue(k, v) && |EncodeValue(k, v)| < TWO_32
    ensures SkipField(WireType(k), EncodeValue(k, v) + rest) == Some(rest)
  {
    hide EncodeVarint, SkipVarint, DecodeString, EncodeFields, EncodeFixed32;
    var b := EncodeValue(k, v) + rest;
    match k
    case Varint(_) => SkipEncodedVarint(if v.n < 0 then v.n + TWO_64 else v.n, rest);
    case UVarint(_) => SkipEncodedVarint(v.n, rest);
    case SVarint(_) => SkipEncodedVarint(Zigzag(v.n), rest);
    case Fixed32 => assert b[4..] == rest;
    case Fixed64 => assert b[8..] == rest;
    case Submessage(fields) => StringRoundTrip(EncodeFields(fields, v.slots, |fields|), rest);
    case _ => StringRoundTrip(v.b, rest);
  }

  /** A tag that no field has leads past what its wire type says. */
  lemma UnknownTag(fields: seq<Field>, tag: nat, wire: nat, payload: seq<Byte>, slots: seq<Slot>, seen: set<nat>)
    requires |slots| == |fields| && 1 <= tag < 0x2000_0000 && !HasTag(fields, tag) && wire < 8
    ensures DecodeFields(fields, EncodeTag(tag, wire) + payload, slots, seen) ==
            match SkipField(wire, payload)
            case None => None
            case Some(rest) => DecodeFields(fields, rest, slots, seen)
  {
    var key := tag * 8 + wire;
    var b := EncodeTag(tag, wire) + payload;
    assert key < TWO_32 && key / 8 == tag && key % 8 == wire && key > 0;
    ReadVarint32RoundTrip(key, payload);
    assert FindTag(fields, tag) == None;
    assert b[|EncodeVarint(key)|..] == payload;
    hide DecodeVarint32, EncodeVarint, DecodeField, FindTag, SkipField;
    assert b != [];
  }

  /** A field that the reader does not know changes nothing, whatever its type and value. */
  lemma UnknownValueIsSkipped(fields: seq<Field>, tag: nat, k: DataType, v: Value, rest: seq<Byte>, slots: seq<Slot>, seen: set<nat>)
    requires |slots| == |fields| && 1 <= tag < 0x2000_0000 && !HasTag(fields, tag)
    requires GoodType(k) && FitsValue(k, v) && |EncodeValue(k, v)| < TWO_32
    ensures DecodeFields(fields, EncodeTag(tag, WireType(k)) + (EncodeValue(k, v) + rest), slots, seen) ==
            DecodeFields(fields, rest, slots, seen)
  {
    assert WireType(k) < 8;
    hide *;
    SkipValue(k, v, rest);
    UnknownTag(fields, tag, WireType(k), EncodeValue(k, v) + rest, slots, seen);
  }

  /** A wire type that does not exist cannot be skipped. */
  lemma UnknownWireIsRefused(fields: seq<Field>, tag: nat, wire: nat, rest: seq<Byte>, slots: seq<Slot>, seen: set<nat>)
    requires |slots| == |fields| && 1 <= tag < 0x2000_0000 && !HasTag(fields, tag)
    requires wire < 8 && wire !in {WIRE_VARINT, WIRE_64BIT, WIRE_STRING, WIRE_32BIT}
    ensures DecodeFields(fields, EncodeTag(tag, wire) + rest, slots, seen) == None
  {
    assert SkipField(wire, rest) == None;
    hide *;
    UnknownTag(fields, tag, wire, rest, slots, seen);
  }

  lemma TaggedSplit(f: Field, vs: seq<Value>, n: nat, rest: seq<Byte>)
    requires 0 < n <= |vs| && GoodType(f.kind) && forall i :: 0 <= i < |vs| ==> FitsValue(f.kind, vs[i])
    ensures EncodeTagged(f, vs, n) + rest ==
            EncodeTagged(f, vs, n - 1) + (EncodeTag(f.tag, WireType(f.kind)) + (EncodeValue(f.kind, vs[n - 1]) + rest))
    ensures |EncodeTagged(f, vs, n - 1)| + |EncodeValue(f.kind, vs[n - 1])| <= |EncodeTagged(f, vs, n)|
  {
    var earlier, tag, value := EncodeTagged(f, vs, n - 1), EncodeTag(f.tag, WireType(f.kind)), EncodeValue(f.kind, vs[n - 1]);
    assert EncodeTagged(f, vs, n) == earlier + tag + value;
    Assoc3(earlier, tag, value, rest);
  }

  lemma {:induction false} UnknownTaggedIsSkipped(fields: seq<Field>, f: Field, vs: seq<Value>, n: nat, rest: seq<Byte>,
                                                  slots: seq<Slot>, seen: set<nat>)
    requires |slots| == |fields| && 1 <= f.tag < 0x2000_0000 && !HasTag(fields, f.tag)
    requires n <= |vs| && GoodType(f.kind) && forall i :: 0 <= i < |vs| ==> FitsValue(f.kind, vs[i])
    requires |EncodeTagged(f, vs, n)| < TWO_32
    ensures DecodeFields(fields, EncodeTagged(f, vs, n) + rest, slots, seen) == DecodeFields(fields, rest, slots, seen)
    decreases n
  {
    if n == 0 {
      assert EncodeTagged(f, vs, n) + rest == rest;
    } else {
      hide *;
      TaggedSplit(f, vs, n, rest);
      UnknownTaggedIsSkipped(fields, f, vs, n - 1, EncodeTag(f.tag, WireType(f.kind)) + (EncodeValue(f.kind, vs[n - 1]) + rest), slots, seen);
      UnknownValueIsSkipped(fields, f.tag, f.kind, vs[n - 1], rest, slots, seen);
    }
  }

  /** All bytes of a field, packed or not, are passed over by a reader that does not know it. */
  lemma UnknownFieldIsSkipped(fields: seq<Field>, f: Field, s: Slot, rest: seq<Byte>, slots: seq<Slot>, seen: set<nat>)
    requires |slots| == |fields| && 1 <= f.tag < 0x2000_0000 && !HasTag(fields, f.tag)
    requires GoodField(f) && FitsSlot(f, s) && |EncodeField(f, s)| < TWO_32
    ensures DecodeFields(fields, EncodeField(f, s) + rest, slots, seen) == DecodeFields(fields, rest, slots, seen)
  {
    hide DecodeFields, EncodeTagged, EncodeItems, EncodeTag, EncodeVarint, SkipField, HasTag;
    if !Present(s) {
      assert EncodeField(f, s) + rest == rest;
    } else if f.rule.Repeated? && Packable(f.kind) {
      var items := EncodeItems(f.kind, s.vs, |s.vs|);
      assert EncodeField(f, s) + rest == EncodeTag(f.tag, WIRE_STRING) + (EncodeString(items) + rest);
      PackedIsSkipped(items, rest);
      UnknownTag(fields, f.tag, WIRE_STRING, EncodeString(items) + rest, slots, seen);
    } else if f.rule.Repeated? {
      UnknownTaggedIsSkipped(fields, f, s.vs, |s.vs|, rest, slots, seen);
    } else {
      var v := if f.rule.Required? then s.v else s.o.value;
      assert EncodeField(f, s) + rest == EncodeTag(f.tag, WireType(f.kind)) + (EncodeValue(f.kind, v) + rest);
      UnknownValueIsSkipped(fields, f.tag, f.kind, v, rest, slots, seen);
    }
  }

  lemma PackedIsSkipped(items: seq<Byte>, rest: seq<Byte>)
    requires |items| < TWO_32
    ensures SkipField(WIRE_STRING, EncodeString(items) + rest) == Some(rest)
  {
    hide EncodeString, DecodeString;
    StringRoundTrip(items, rest);
  }

  // ----- A reader with another descriptor -----

  /** Descriptors of one message type at different times: a tag means the same field in both. */
  predicate Compatible(w: seq<Field>, r: seq<Field>) {
    && GoodFields(w) && GoodFields(r)
    && forall i, j :: 0 <= i < |w| && 0 <= j < |r| && w[i].tag == r[j].tag ==> w[i] == r[j]
  }

  /** Position of the reader's field among the first `n` of the writer's. */
  ghost predicate Written(w: seq<Field>, r: seq<Field>, n: nat, i: int, j: int) {
    0 <= i < n <= |w| && 0 <= j < |r| && w[i].tag == r[j].tag
  }

  ghost predicate Unwritten(w: seq<Field>, r: seq<Field>, n: nat, j: int) {
    forall i :: !Written(w, r, n, i, j)
  }

  /** What the reader has when the writer's first `n` fields have been read: the values of the fields it
      knows, and defaults. */
  ghost predicate ReadSoFar(w: seq<Field>, slots: seq<Slot>, r: seq<Field>, n: nat, got: seq<Slot>, seen: set<nat>)
    requires |slots| == |w|
  {
    && |got| == |r|
    && (forall i, j :: Written(w, r, n, i, j) ==> got[j] == slots[i] && (j in seen <==> Present(slots[i])))
    && (forall j :: 0 <= j < |r| && Unwritten(w, r, n, j) ==> got[j] == DefaultSlot(r[j]) && j !in seen)
  }

  lemma NothingRead(w: seq<Field>, slots: seq<Slot>, r: seq<Field>)
    requires |slots| == |w|
    ensures ReadSoFar(w, slots, r, 0, DefaultSlots(r), {})
  {
  }

  /** One more field that the reader knows. */
  lemma KnownFieldRead(w: seq<Field>, slots: seq<Slot>, r: seq<Field>, i: nat, j: nat, got: seq<Slot>, seen: set<nat>)
    requires Compatible(w, r) && |slots| == |w| && i < |w| && j < |r| && w[i].tag == r[j].tag
    requires ReadSoFar(w, slots, r, i, got, seen)
    ensures got[j] == DefaultSlot(r[j]) && |got| == |r|
    ensures ReadSoFar(w, slots, r, i + 1, got[j := slots[i]], if Present(slots[i]) then seen + {j} else seen)
  {
    hide GoodField, DefaultSlot, Present;
    assert Unwritten(w, r, i, j);
    forall i', j' | Written(w, r, i + 1, i', j') ensures (i' == i <==> j' == j) && (i' != i ==> Written(w, r, i, i', j')) {
    }
    forall j' | 0 <= j' < |r| && Unwritten(w, r, i + 1, j') ensures j' != j && Unwritten(w, r, i, j') {
      assert !Written(w, r, i + 1, i, j');
      forall i' ensures !Written(w, r, i, i', j') {
        assert !Written(w, r, i + 1, i', j');
      }
    }
  }

  /** One more field that it does not know. */
  lemma UnknownFieldRead(w: seq<Field>, slots: seq<Slot>, r: seq<Field>, i: nat, got: seq<Slot>, seen: set<nat>)
    requires |slots| == |w| && i < |w| && !HasTag(r, w[i].tag) && ReadSoFar(w, slots, r, i, got, seen)
    ensures ReadSoFar(w, slots, r, i + 1, got, seen)
  {
    hide DefaultSlot, Present;
    forall i', j' ensures Written(w, r, i + 1, i', j') <==> Written(w, r, i, i', j') {
    }
    forall j' | Unwritten(w, r, i + 1, j') ensures Unwritten(w, r, i, j') {
      forall i' ensures !Written(w, r, i, i', j') {
        assert !Written(w, r, i + 1, i', j');
      }
    }
  }

  lemma NothingEncoded(w: seq<Field>, slots: seq<Slot>, rest: seq<Byte>)
    requires GoodFields(w) && FitsAll(w, slots)
    ensures EncodeFields(w, slots, 0) + rest == rest
  {
  }

  lemma EncodeFieldsSplit(w: seq<Field>, slots: seq<Slot>, n: nat, rest: seq<Byte>)
    requires GoodFields(w) && FitsAll(w, slots) && 0 < n <= |w|
    ensures GoodField(w[n - 1]) && FitsSlot(w[n - 1], slots[n - 1]) && 1 <= w[n - 1].tag < 0x2000_0000
    ensures EncodeFields(w, slots, n) + rest == EncodeFields(w, slots, n - 1) + (EncodeField(w[n - 1], slots[n - 1]) + rest)
    ensures |EncodeFields(w, slots, n)| == |EncodeFields(w, slots, n - 1)| + |EncodeField(w[n - 1], slots[n - 1])|
  {
    assert EncodeFields(w, slots, n) == EncodeFields(w, slots, n - 1) + EncodeField(w[n - 1], slots[n - 1]);
    Assoc(EncodeFields(w, slots, n - 1), EncodeField(w[n - 1], slots[n - 1]), rest);
  }

  lemma CompatibleIsGood(w: seq<Field>, r: seq<Field>)
    requires Compatible(w, r)
    ensures GoodFields(w) && GoodFields(r)
    ensures forall i, j :: 0 <= i < |w| && 0 <= j < |r| && w[i].tag == r[j].tag ==> w[i] == r[j]
  {
  }

  lemma {:induction false} OtherReaderUpTo(w: seq<Field>, slots: seq<Slot>, r: seq<Field>, n: nat, rest: seq<Byte>)
    returns (got: seq<Slot>, seen: set<nat>)
    requires Compatible(w, r) && FitsAll(w, slots) && n <= |w| && |EncodeFields(w, slots, n)| < TWO_32
    ensures ReadSoFar(w, slots, r, n, got, seen) && |got| == |r|
    ensures DecodeFields(r, EncodeFields(w, slots, n) + rest, DefaultSlots(r), {}) == DecodeFields(r, rest, got, seen)
    decreases n
  {
    CompatibleIsGood(w, r);
    assert |slots| == |w|;
    hide *;
    if n == 0 {
      got, seen := DefaultSlots(r), {};
      NothingRead(w, slots, r);
      NothingEncoded(w, slots, rest);
    } else {
      var i := n - 1;
      var f, s := w[i], slots[i];
      EncodeFieldsSplit(w, slots, n, rest);
      got, seen := OtherReaderUpTo(w, slots, r, i, EncodeField(f, s) + rest);
      got, seen := ReadOneMore(w, slots, r, i, rest, got, seen);
    }
  }

  lemma ReadOneMore(w: seq<Field>, slots: seq<Slot>, r: seq<Field>, i: nat, rest: seq<Byte>, got: seq<Slot>, seen: set<nat>)
    returns (got': seq<Slot>, seen': set<nat>)
    requires Compatible(w, r) && i < |w| == |slots| && GoodField(w[i]) && FitsSlot(w[i], slots[i])
    requires |EncodeField(w[i], slots[i])| < TWO_32 && ReadSoFar(w, slots, r, i, got, seen) && |got| == |r|
    ensures ReadSoFar(w, slots, r, i + 1, got', seen') && |got'| == |r|
    ensures DecodeFields(r, EncodeField(w[i], slots[i]) + rest, got, seen) == DecodeFields(r, rest, got', seen')
  {
    var f, s := w[i], slots[i];
    assert 1 <= f.tag < 0x2000_0000;
    CompatibleIsGood(w, r);
    if HasTag(r, f.tag) {
      var j :| 0 <= j < |r| && r[j].tag == f.tag;
      assert r[j] == f;
      hide *;
      KnownFieldRead(w, slots, r, i, j, got, seen);
      FieldRoundTrip(r, j, s, rest, got, seen);
      got', seen' := got[j := s], if Present(s) then seen + {j} else seen;
    } else {
      hide *;
      UnknownFieldRead(w, slots, r, i, got, seen);
      UnknownFieldIsSkipped(r, f, s, rest, got, seen);
      got', seen' := got, seen;
    }
  }

  /** What a reader with its own descriptor makes of a message: the values of the fields both know, and
      defaults for the fields it alone knows.  It fails if and only if one of the required fields that it
      checks for is unknown to the writer. */
  lemma OtherReader(w: seq<Field>, slots: seq<Slot>, r: seq<Field>)
    requires Compatible(w, r) && FitsAll(w, slots) && |EncodeMessage(w, slots)| < TWO_32
    ensures var d := DecodeMessage(r, EncodeMessage(w, slots));
            && (d.Some? <==> forall j :: j in RequiredFields(r) ==> HasTag(w, r[j].tag))
            && (d.Some? ==>
                  && |d.value| == |r|
                  && (forall i, j :: 0 <= i < |w| && 0 <= j < |r| && w[i].tag == r[j].tag ==> d.value[j] == slots[i])
                  && forall j :: 0 <= j < |r| && !HasTag(w, r[j].tag) ==> d.value[j] == DefaultSlot(r[j]))
  {
    var none: seq<Byte> := [];
    var got, seen := OtherReaderUpTo(w, slots, r, |w|, none);
    assert EncodeMessage(w, slots) + none == EncodeMessage(w, slots);
    assert DecodeMessage(r, EncodeMessage(w, slots)) == Finished(r, got, seen);
    SeenIsWritten(w, slots, r, got, seen);
    hide GoodField, DefaultSlot, DecodeMessage, EncodeMessage, RequiredFields, Present;
    forall i, j | 0 <= i < |w| && 0 <= j < |r| && w[i].tag == r[j].tag ensures got[j] == slots[i] {
      assert Written(w, r, |w|, i, j);
    }
    forall j | 0 <= j < |r| && !HasTag(w, r[j].tag) ensures got[j] == DefaultSlot(r[j]) {
      assert Unwritten(w, r, |w|, j);
    }
  }

  lemma SeenIsWritten(w: seq<Field>, slots: seq<Slot>, r: seq<Field>, got: seq<Slot>, seen: set<nat>)
    requires Compatible(w, r) && FitsAll(w, slots) && ReadSoFar(w, slots, r, |w|, got, seen)
    ensures RequiredFields(r) <= seen <==> forall j :: j in RequiredFields(r) ==> HasTag(w, r[j].tag)
  {
    hide GoodField, DefaultSlot;
    forall j | j in RequiredFields(r) ensures j in seen <==> HasTag(w, r[j].tag) {
      if HasTag(w, r[j].tag) {
        var i :| 0 <= i < |w| && w[i].tag == r[j].tag;
        assert Written(w, r, |w|, i, j) && FitsSlot(w[i], slots[i]);
      } else {
        assert Unwritten(w, r, |w|, j);
      }
    }
  }

  /** A descriptor with at most 64 required fields has them all checked. */
  lemma {:induction false} AllRequiredAreChecked(fields: seq<Field>)
    requires RequiredCount(fields) <= MAX_REQUIRED_FIELDS
    ensures RequiredFields(fields) == set i | 0 <= i < |fields| && fields[i].rule.Required?
  {
    forall i | 0 <= i < |fields| && fields[i].rule.Required? ensures RequiredCount(fields[..i]) < MAX_REQUIRED_FIELDS {
      CountedBefore(fields, i);
    }
  }

  lemma {:induction false} CountedBefore(fields: seq<Field>, i: nat)
    requires i < |fields| && fields[i].rule.Required?
    ensures RequiredCount(fields[..i]) < RequiredCount(fields)
    decreases |fields|
  {
    var n := |fields| - 1;
    if i < n {
      assert fields[..n][..i] == fields[..i];
      CountedBefore(fields[..n], i);
    }
  }

  // ----- Any bytes -----

  lemma {:induction false} DefaultFits(k: DataType)
    requires GoodType(k)
    ensures FitsValue(k, DefaultValue(k))
    decreases k, 0
  {
    if k.Submessage? {
      DefaultsFit(k.fields);
    }
  }

  lemma {:induction false} DefaultsFit(fields: seq<Field>)
    requires GoodFields(fields)
    ensures FitsAll(fields, DefaultSlots(fields))
    decreases fields, 1
  {
    forall i | 0 <= i < |fields| ensures FitsSlot(fields[i], DefaultSlot(fields[i])) {
      assert GoodField(fields[i]);
      DefaultSlotFits(fields[i]);
    }
  }

  lemma {:induction false} DefaultSlotFits(f: Field)
    requires GoodField(f)
    ensures FitsSlot(f, DefaultSlot(f))
    decreases f, 0
  {
    DefaultFits(f.kind);
  }

  lemma {:induction false} UpToZeroHasNone(b: seq<Byte>)
    ensures |UpToZero(b)| <= |b| && forall i :: 0 <= i < |UpToZero(b)| ==> UpToZero(b)[i] != 0
  {
    if b != [] && b[0] != 0 {
      UpToZeroHasNone(b[1..]);
    }
  }

  lemma SignedFits(n: nat, size: nat)
    ensures -Half(size) <= Signed(n, size) < Half(size)
  {
    hide Half;
    var whole := 2 * Half(size);
    assert Half(size) > 0 by {
      HalfIsPositive(size);
    }
    assert 0 <= n % whole < whole;
  }

  lemma HalfIsPositive(size: nat)
    ensures Half(size) > 0
  {
  }

  lemma RestFits(n: nat, size: nat)
    ensures 0 <= n % (2 * Half(size)) < 2 * Half(size)
  {
    HalfIsPositive(size);
  }

  lemma ScalarFits(k: DataType, b: seq<Byte>)
    requires GoodType(k) && !k.Submessage? && DecodeScalar(k, b).Some?
    ensures FitsValue(k, DecodeScalar(k, b).value.v)
  {
    hide DecodeVarint64, DecodeString, DecodeFixed64, DecodeFixed32, UpToZero, Signed, Half, Unzigzag;
    match k
    case Varint(size) => SignedFits(DecodeVarint64(b).value.0, size);
    case UVarint(size) => RestFits(DecodeVarint64(b).value.0, size);
    case Text(_) => UpToZeroHasNone(DecodeString(b).value.v);
    case Fixed64 => Fixed64Fits(b);
    case _ =>
  }

  lemma Fixed64Fits(b: seq<Byte>)
    requires |b| >= 8
    ensures 0 <= DecodeFixed64(b) < TWO_64
  {
    hide DecodeFixed32;
  }

  lemma {:induction false} ValueFits(k: DataType, current: Value, b: seq<Byte>)
    requires GoodType(k) && FitsValue(k, current) && DecodeValue(k, current, b).Some?
    ensures FitsValue(k, DecodeValue(k, current, b).value.v)
    decreases k, 0
  {
    hide DecodeScalar, DecodeString;
    if k.Submessage? {
      var t := DecodeString(b).value;
      FieldsFit(k.fields, t.v, current.slots, {});
    } else {
      ScalarFits(k, b);
    }
  }

  lemma {:induction false} PackedFits(k: DataType, vs: seq<Value>, max: nat, b: seq<Byte>)
    requires GoodType(k) && |vs| <= max && (forall i :: 0 <= i < |vs| ==> FitsValue(k, vs[i])) && DecodePacked(k, vs, max, b).Some?
    ensures var r := DecodePacked(k, vs, max, b).value; |r| <= max && forall i :: 0 <= i < |r| ==> FitsValue(k, r[i])
    decreases k, 1, |b|
  {
    hide DecodeValue, FitsValue, GoodType, DefaultValue;
    if b != [] {
      DefaultFits(k);
      ValueFits(k, DefaultValue(k), b);
      var t := DecodeValue(k, DefaultValue(k), b).value;
      PackedFits(k, vs + [t.v], max, t.rest);
    }
  }

  lemma {:induction false} FieldFits(f: Field, s: Slot, wire: nat, b: seq<Byte>)
    requires GoodField(f) && FitsSlot(f, s) && DecodeField(f, s, wire, b).Some?
    ensures FitsSlot(f, DecodeField(f, s, wire, b).value.v)
    decreases f, 2
  {
    hide DecodeValue, DecodeString, DecodePacked, FitsValue, GoodType, DefaultValue;
    DefaultFits(f.kind);
    match f.rule
    case Required => ValueFits(f.kind, s.v, b);
    case Optional => ValueFits(f.kind, if s.o.Some? then s.o.value else DefaultValue(f.kind), b);
    case Repeated(max) =>
      if wire == WIRE_STRING && Packable(f.kind) {
        PackedFits(f.kind, s.vs, max, DecodeString(b).value.v);
      } else {
        ValueFits(f.kind, DefaultValue(f.kind), b);
      }
  }

  lemma FitsAfter(fields: seq<Field>, slots: seq<Slot>, i: nat, s: Slot)
    requires FitsAll(fields, slots) && i < |fields| && FitsSlot(fields[i], s)
    ensures FitsAll(fields, slots[i := s])
  {
    hide FitsSlot;
  }

  lemma SlotFits(fields: seq<Field>, slots: seq<Slot>, i: nat)
    requires GoodFields(fields) && FitsAll(fields, slots) && i < |fields|
    ensures GoodField(fields[i]) && FitsSlot(fields[i], slots[i])
  {
  }

  lemma {:induction false} FieldsFit(fields: seq<Field>, b: seq<Byte>, slots: seq<Slot>, seen: set<nat>)
    requires GoodFields(fields) && FitsAll(fields, slots) && DecodeFields(fields, b, slots, seen).Some?
    ensures FitsAll(fields, DecodeFields(fields, b, slots, seen).value)
    decreases fields, 3, |b|
  {
    assert |slots| == |fields|;
    hide DecodeVarint32, SkipField, FindTag, DecodeField, FitsAll, GoodFields, RequiredFields;
    if b != [] {
      var (key, n) := DecodeVarint32(b).value;
      if key != 0 {
        match FindTag(fields, key / 8)
        case None =>
          FieldsFit(fields, SkipField(key % 8, b[n..]).value, slots, seen);
        case Some(i) =>
          SlotFits(fields, slots, i);
          FieldFits(fields[i], slots[i], key % 8, b[n..]);
          var t := DecodeField(fields[i], slots[i], key % 8, b[n..]).value;
          FitsAfter(fields, slots, i, t.v);
          FieldsFit(fields, t.rest, slots[i := t.v], seen + {i});
      }
    }
  }

  /** Whatever the bytes: a message that is decoded fits its descriptor.  Numbers are in the range of
      their type, arrays and strings within their size, and strings are terminated. */
  lemma DecodedFits(fields: seq<Field>, b: seq<Byte>)
    requires GoodFields(fields) && DecodeMessage(fields, b).Some?
    ensures FitsAll(fields, DecodeMessage(fields, b).value)
  {
    DefaultsFit(fields);
    FieldsFit(fields, b, DefaultSlots(fields), {});
  }

  /** So it can be encoded again, and decoding that gives the same message. */
  lemma DecodedIsStable(fields: seq<Field>, b: seq<Byte>)
    requires GoodFields(fields) && DecodeMessage(fields, b).Some?
    ensures FitsAll(fields, DecodeMessage(fields, b).value)
    ensures var slots := DecodeMessage(fields, b).value;
            |EncodeMessage(fields, slots)| < TWO_32 ==> DecodeMessage(fields, EncodeMessage(fields, slots)) == Some(slots)
  {
    DecodedFits(fields, b);
    var slots := DecodeMessage(fields, b).value;
    if |EncodeMessage(fields, slots)| < TWO_32 {
      MessageRoundTrip(fields, slots);
    }
  }

  // ----- The documented wire format -----

  lemma DocumentedNumbers()
    ensures EncodeVarint(150) == [0x96, 0x01] && EncodeVarint(270) == [0x8e, 0x02] && EncodeVarint(86942) == [0x9e, 0xa7, 0x05]
    ensures Zigzag(0) == 0 && Zigzag(-1) == 1 && Zigzag(1) == 2 && Zigzag(0x7fff_ffff) == 0xffff_fffe && Zigzag(-0x8000_0000) == 0xffff_ffff
    ensures EncodeTag(1, WIRE_VARINT) == [0x08] && EncodeTag(2, WIRE_STRING) == [0x12] && EncodeTag(3, WIRE_STRING) == [0x1a]
    ensures EncodeTag(6, WIRE_STRING) == [0x32] && EncodeTag(1, WIRE_64BIT) == [0x09] && EncodeTag(1, WIRE_32BIT) == [0x0d]
  {
    assert EncodeVarint(1) == [1] && EncodeVarint(2) == [2] && EncodeVarint(5) == [5] && EncodeVarint(679) == [0xa7, 0x05];
  }

  const NUMBER := Field(1, Optional, Varint(4))
  const TEXT := Field(2, Optional, Text(16))
  const NESTED := Field(3, Optional, Submessage([NUMBER]))
  const PACKED := Field(6, Repeated(3), Varint(4))

  lemma NumberBytes()
    ensures FitsSlot(NUMBER, Perhaps(Some(Int(150)))) && EncodeField(NUMBER, Perhaps(Some(Int(150)))) == [0x08, 0x96, 0x01]
    ensures GoodFields([NUMBER]) && FitsAll([NUMBER], [Perhaps(Some(Int(150)))])
    ensures EncodeMessage([NUMBER], [Perhaps(Some(Int(150)))]) == [0x08, 0x96, 0x01]
  {
    DocumentedNumbers();
    assert EncodeField(NUMBER, Perhaps(Some(Int(150)))) == [0x08] + [0x96, 0x01];
    var none: seq<Byte> := [];
    hide EncodeField;
    assert EncodeFields([NUMBER], [Perhaps(Some(Int(150)))], 0) == none;
    assert none + [0x08, 0x96, 0x01] == [0x08, 0x96, 0x01];
  }

  /** The examples of the Protocol Buffers Encoding document: the number 150 in field 1, the string
      "testing" in field 2, the first of these nested in field 3, and 3, 270, 86942 packed in field 6. */
  lemma DocumentedBytes()
    ensures var testing := [0x74, 0x65, 0x73, 0x74, 0x69, 0x6e, 0x67];
            && FitsSlot(TEXT, Perhaps(Some(Bytes(testing))))
            && EncodeField(TEXT, Perhaps(Some(Bytes(testing)))) == [0x12, 0x07, 0x74, 0x65, 0x73, 0x74, 0x69, 0x6e, 0x67]
    ensures var inner := Perhaps(Some(Int(150)));
            && GoodField(NUMBER) && FitsSlot(NUMBER, inner) && EncodeField(NUMBER, inner) == [0x08, 0x96, 0x01]
            && GoodField(NESTED) && FitsSlot(NESTED, Perhaps(Some(Message([inner]))))
            && EncodeField(NESTED, Perhaps(Some(Message([inner])))) == [0x1a, 0x03, 0x08, 0x96, 0x01]
    ensures FitsSlot(PACKED, Many([Int(3), Int(270), Int(86942)]))
    ensures EncodeField(PACKED, Many([Int(3), Int(270), Int(86942)])) == [0x32, 0x06, 0x03, 0x8e, 0x02, 0x9e, 0xa7, 0x05]
  {
    DocumentedNumbers();
    TextBytes();
    NestedBytes();
    PackedBytes();
  }

  lemma TextBytes()
    ensures var testing := [0x74, 0x65, 0x73, 0x74, 0x69, 0x6e, 0x67];
            && FitsSlot(TEXT, Perhaps(Some(Bytes(testing))))
            && EncodeField(TEXT, Perhaps(Some(Bytes(testing)))) == [0x12, 0x07, 0x74, 0x65, 0x73, 0x74, 0x69, 0x6e, 0x67]
  {
    DocumentedNumbers();
    var testing: seq<Byte> := [0x74, 0x65, 0x73, 0x74, 0x69, 0x6e, 0x67];
    assert EncodeVarint(7) == [7];
    assert EncodeString(testing) == [7] + testing;
  }

  lemma NestedBytes()
    ensures var inner := Perhaps(Some(Int(150)));
            && GoodField(NUMBER) && FitsSlot(NUMBER, inner) && EncodeField(NUMBER, inner) == [0x08, 0x96, 0x01]
            && GoodField(NESTED) && FitsSlot(NESTED, Perhaps(Some(Message([inner]))))
            && EncodeField(NESTED, Perhaps(Some(Message([inner])))) == [0x1a, 0x03, 0x08, 0x96, 0x01]
  {
    DocumentedNumbers();
    NumberBytes();
    var inner: seq<Byte> := [0x08, 0x96, 0x01];
    assert EncodeVarint(3) == [3];
    assert EncodeString(inner) == [3] + inner;
    hide EncodeFields;
  }

  lemma PackedBytes()
    ensures FitsSlot(PACKED, Many([Int(3), Int(270), Int(86942)]))
    ensures EncodeField(PACKED, Many([Int(3), Int(270), Int(86942)])) == [0x32, 0x06, 0x03, 0x8e, 0x02, 0x9e, 0xa7, 0x05]
  {
    DocumentedNumbers();
    var vs := [Int(3), Int(270), Int(86942)];
    var k := Varint(4);
    assert EncodeVarint(3) == [3] && EncodeVarint(6) == [6];
    assert forall i :: 0 <= i < |vs| ==> FitsValue(k, vs[i]);
    assert EncodeItems(k, vs, 0) == [];
    assert EncodeItems(k, vs, 1) == [3];
    assert EncodeItems(k, vs, 2) == [3, 0x8e, 0x02];
    assert EncodeItems(k, vs, 3) == [3, 0x8e, 0x02, 0x9e, 0xa7, 0x05];
  }
}
