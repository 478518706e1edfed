/** The table-driven protocol-buffer codec: messages as typed trees, their bytes, and decoding of any
    bytes at all.  The wire format is that of the Protocol Buffers Encoding document. */
module Nanopb {
  import opened Entries
  import opened Coding

  // ----- Descriptors and messages -----

  /** Type of a field's data; `size` is in bytes. */
  datatype DataType =
    | Varint(size: nat)
    | UVarint(size: nat)
    | SVarint(size: nat)
    | Fixed32
    | Fixed64
    | Data(max: nat)
    | Text(size: nat)
    | Submessage(fields: seq<Field>)
    | FixedData(size: nat)

  datatype Rule = Required | Optional | Repeated(max: nat)

  datatype Field = Field(tag: nat, rule: Rule, kind: DataType)

  /** A message is a tree: a slot for each field of its descriptor. */
  datatype Value = Int(n: int) | Bytes(b: seq<Byte>) | Message(slots: seq<Slot>)

  datatype Slot = One(v: Value) | Perhaps(o: Option<Value>) | Many(vs: seq<Value>)

  predicate GoodType(k: DataType) {
    match k
    case Varint(size) => size in {1, 2, 4, 8}
    case UVarint(size) => size in {1, 2, 4, 8}
    case SVarint(size) => size in {1, 2, 4, 8}
    case Submessage(fields) => GoodFields(fields)
    case Text(size) => size > 0
    case _ => true
  }

  /** Tags are unique and positive. */
  predicate GoodFields(fields: seq<Field>) {
    && (forall i :: 0 <= i < |fields| ==> 1 <= fields[i].tag < 0x2000_0000)
    && (forall i, j :: 0 <= i < j < |fields| ==> fields[i].tag != fields[j].tag)
    && forall i :: 0 <= i < |fields| ==> GoodField(fields[i])
  }

  predicate GoodField(f: Field) {
    GoodType(f.kind)
  }

  /** Half the range of a signed integer. */
  function Half(size: nat): int {
    if size == 1 then 0x80 else if size == 2 then 0x8000 else if size == 4 then 0x8000_0000 else 0x8000_0000_0000_0000
  }

  /** The value has the type of the field; strings are terminated within their array. */
  predicate FitsValue(k: DataType, v: Value) {
    match k
    case Varint(size) => v.Int? && -Half(size) <= v.n < Half(size)
    case SVarint(size) => v.Int? && -Half(size) <= v.n < Half(size)
    case UVarint(size) => v.Int? && 0 <= v.n < 2 * Half(size)
    case Fixed32 => v.Int? && 0 <= v.n < TWO_32
    case Fixed64 => v.Int? && 0 <= v.n < TWO_64
    case Data(max) => v.Bytes? && |v.b| <= max
    case Text(size) => v.Bytes? && |v.b| < size && forall i :: 0 <= i < |v.b| ==> v.b[i] != 0
    case FixedData(size) => v.Bytes? && |v.b| == size
    case Submessage(fields) => v.Message? && FitsAll(fields, v.slots)
  }

  predicate FitsSlot(f: Field, s: Slot) {
    match f.rule
    case Required => s.One? && FitsValue(f.kind, s.v)
    case Optional => s.Perhaps? && (s.o.Some? ==> FitsValue(f.kind, s.o.value))
    case Repeated(max) => s.Many? && |s.vs| <= max && forall i :: 0 <= i < |s.vs| ==> FitsValue(f.kind, s.vs[i])
  }

  predicate FitsAll(fields: seq<Field>, slots: seq<Slot>) {
    |slots| == |fields| && forall i :: 0 <= i < |fields| ==> FitsSlot(fields[i], slots[i])
  }

  // ----- Encoding -----

  function Zigzag(n: int): nat {
    if n < 0 then -2 * n - 1 else 2 * n
  }

  function Unzigzag(n: nat): int {
    if n % 2 == 1 then -(n / 2) - 1 else n / 2
  }

  const WIRE_VARINT := 0
  const WIRE_64BIT := 1
  const WIRE_STRING := 2
  const WIRE_32BIT := 5

  function WireType(k: DataType): nat {
    match k
    case Varint(_) => WIRE_VARINT
    case UVarint(_) => WIRE_VARINT
    case SVarint(_) => WIRE_VARINT
    case Fixed32 => WIRE_32BIT
    case Fixed64 => WIRE_64BIT
    case _ => WIRE_STRING
  }

  predicate Packable(k: DataType) {
    k.Varint? || k.UVarint? || k.SVarint? || k.Fixed32? || k.Fixed64?
  }

  function EncodeTag(tag: nat, wire: nat): seq<Byte> {
    EncodeVarint(tag * 8 + wire)
  }

  function EncodeString(b: seq<Byte>): seq<Byte> {
    EncodeVarint(|b|) + b
  }

  function EncodeValue(k: DataType, v: Value): seq<Byte>
    requires FitsValue(k, v) && GoodType(k)
    decreases k, 0
  {
    match k
    case Varint(_) => EncodeVarint(if v.n < 0 then v.n + TWO_64 else v.n)
    case UVarint(_) => EncodeVarint(v.n)
    case SVarint(_) => EncodeVarint(Zigzag(v.n))
    case Fixed32 => EncodeFixed32(v.n)
    case Fixed64 => EncodeFixed64(v.n)
    case Submessage(fields) => EncodeString(EncodeFields(fields, v.slots, |fields|))
    case _ => EncodeString(v.b)
  }

  /** The first `n` values of an array, one after the other. */
  function EncodeItems(k: DataType, vs: seq<Value>, n: nat): seq<Byte>
    requires n <= |vs| && GoodType(k) && forall i :: 0 <= i < |vs| ==> FitsValue(k, vs[i])
    decreases k, 1, n
  {
    if n == 0 then [] else EncodeItems(k, vs, n - 1) + EncodeValue(k, vs[n - 1])
  }

  /** The same, each with its tag. */
  function EncodeTagged(f: Field, vs: seq<Value>, n: nat): seq<Byte>
    requires n <= |vs| && GoodType(f.kind) && forall i :: 0 <= i < |vs| ==> FitsValue(f.kind, vs[i])
    decreases f, 1, n
  {
    if n == 0 then []
    else EncodeTagged(f, vs, n - 1) + EncodeTag(f.tag, WireType(f.kind)) + EncodeValue(f.kind, vs[n - 1])
  }

  function EncodeField(f: Field, s: Slot): seq<Byte>
    requires FitsSlot(f, s) && GoodField(f)
    decreases f, 2
  {
    match f.rule
    case Required => EncodeTag(f.tag, WireType(f.kind)) + EncodeValue(f.kind, s.v)
    case Optional => if s.o.None? then [] else EncodeTag(f.tag, WireType(f.kind)) + EncodeValue(f.kind, s.o.value)
    case Repeated(_) =>
      if s.vs == [] then []
      else if Packable(f.kind) then EncodeTag(f.tag, WIRE_STRING) + EncodeString(EncodeItems(f.kind, s.vs, |s.vs|))
      else EncodeTagged(f, s.vs, |s.vs|)
  }

  /** The first `n` fields of a message. */
  function EncodeFields(fields: seq<Field>, slots: seq<Slot>, n: nat): seq<Byte>
    requires GoodFields(fields) && FitsAll(fields, slots) && n <= |fields|
    decreases fields, 3, n
  {
    if n == 0 then [] else EncodeFields(fields, slots, n - 1) + EncodeField(fields[n - 1], slots[n - 1])
  }

  function EncodeMessage(fields: seq<Field>, slots: seq<Slot>): seq<Byte>
    requires GoodFields(fields) && FitsAll(fields, slots)
  {
    EncodeFields(fields, slots, |fields|)
  }

  // ----- Decoding any bytes -----

  /** Weight of the bits of the second to fifth byte of a varint. */
  function Weight(bitpos: nat): nat {
    if bitpos == 7 then 0x80 else if bitpos == 14 then 0x4000 else if bitpos == 21 then 0x20_0000 else 0x1000_0000
  }

  /** The bytes of a 32-bit varint behind the first.  Bits beyond the 32nd must be zero, or the sign of a
      negative number. */
  function DecodeVarint32Rest(b: seq<Byte>, bitpos: nat, result: nat, used: nat): (r: Option<(nat, nat)>)
    ensures r.Some? ==> used < r.value.1 <= used + |b|
  {
    if b == [] then None
    else
      var byte: nat := b[0];
      var sign := if bitpos < 63 then 0xff else 0x01;
      if bitpos >= 32 && byte % 128 != 0 && (result < 0x8000_0000 || byte != sign) then None
      else
        var result' := if bitpos >= 32 then result else (result + byte % 128 * Weight(bitpos)) % TWO_32;
        if byte >= 128 then DecodeVarint32Rest(b[1..], bitpos + 7, result', used + 1)
        else if bitpos == 28 && byte % 128 >= 16 then None
        else Some((result', used + 1))
  }

  function DecodeVarint32(b: seq<Byte>): (r: Option<(nat, nat)>)
    ensures r.Some? ==> 0 < r.value.1 <= |b|
  {
    if b == [] then None
    else
      var byte: nat := b[0];
      if byte < 128 then Some((byte, 1)) else DecodeVarint32Rest(b[1..], 7, byte - 128, 1)
  }

  const MAX_VARINT64_BYTES := 10

  function DecodeVarint64(b: seq<Byte>): (r: Option<(nat, nat)>)
    ensures r.Some? ==> 0 < r.value.1 <= |b| && r.value.0 < TWO_64
  {
    match DecodeVarint(b, MAX_VARINT64_BYTES)
    case None => None
    case Some((v, n)) => Some((v % TWO_64, n))
  }

  /** A number cast to a signed integer of the given size. */
  function Signed(n: nat, size: nat): int {
    var m := n % (2 * Half(size));
    if m < Half(size) then m else m - 2 * Half(size)
  }

  /** A length and that many bytes. */
  function DecodeString(b: seq<Byte>): (r: Option<Taken<seq<Byte>>>)
    ensures r.Some? ==> |r.value.v| + |r.value.rest| < |b|
  {
    match DecodeVarint32(b)
    case None => None
    case Some((size, n)) =>
      if |b| - n < size then None else Some(Taken(b[n..n + size], b[n + size..]))
  }

  function DecodeScalar(k: DataType, b: seq<Byte>): (r: Option<Taken<Value>>)
    requires !k.Submessage?
    ensures r.Some? ==> |r.value.rest| < |b|
  {
    match k
    case Varint(size) =>
      (match DecodeVarint64(b)
       case None => None
       case Some((n, used)) =>
         var value := Signed(n, if size == 8 then 8 else 4);
         if Signed(n, size) != value then None else Some(Taken(Int(value), b[used..])))
    case UVarint(size) =>
      (match DecodeVarint64(b)
       case None => None
       case Some((n, used)) => if n % (2 * Half(size)) != n then None else Some(Taken(Int(n), b[used..])))
    case SVarint(size) =>
      (match DecodeVarint64(b)
       case None => None
       case Some((n, used)) =>
         if Unzigzag(n) < -Half(size) || Half(size) <= Unzigzag(n) then None else Some(Taken(Int(Unzigzag(n)), b[used..])))
    case Fixed32 => if |b| < 4 then None else Some(Taken(Int(DecodeFixed32(b)), b[4..]))
    case Fixed64 => if |b| < 8 then None else Some(Taken(Int(DecodeFixed64(b)), b[8..]))
    case Data(max) =>
      (match DecodeString(b)
       case None => None
       case Some(t) => if |t.v| > max then None else Some(Taken(Bytes(t.v), t.rest)))
    case Text(size) =>
      (match DecodeString(b)
       case None => None
       case Some(t) => if |t.v| + 1 > size then None else Some(Taken(Bytes(UpToZero(t.v)), t.rest)))
    case FixedData(size) =>
      (match DecodeString(b)
       case None => None
       case Some(t) =>
         if t.v == [] then Some(Taken(Bytes(seq(size, _ => 0)), t.rest))
         else if |t.v| != size then None else Some(Taken(Bytes(t.v), t.rest)))
  }

  /** A C string ends at its first zero. */
  function UpToZero(b: seq<Byte>): seq<Byte> {
    if b == [] || b[0] == 0 then [] else [b[0]] + UpToZero(b[1..])
  }

  /** A message before anything has been decoded into it. */
  function DefaultValue(k: DataType): Value {
    match k
    case Submessage(fields) => Message(DefaultSlots(fields))
    case Data(_) => Bytes([])
    case Text(_) => Bytes([])
    case FixedData(size) => Bytes(seq(size, _ => 0))
    case _ => Int(0)
  }

  function DefaultSlot(f: Field): Slot {
    match f.rule
    case Required => One(DefaultValue(f.kind))
    case Optional => Perhaps(None)
    case Repeated(_) => Many([])
  }

  function DefaultSlots(fields: seq<Field>): (r: seq<Slot>)
    ensures |r| == |fields| && forall i :: 0 <= i < |fields| ==> r[i] == DefaultSlot(fields[i])
  {
    seq(|fields|, i requires 0 <= i < |fields| => DefaultSlot(fields[i]))
  }

  function SkipVarint(b: seq<Byte>): (r: Option<seq<Byte>>)
    ensures r.Some? ==> |r.value| < |b|
  {
    if b == [] then None else if b[0] >= 128 then SkipVarint(b[1..]) else Some(b[1..])
  }

  function SkipField(wire: nat, b: seq<Byte>): (r: Option<seq<Byte>>)
    ensures r.Some? ==> |r.value| <= |b|
  {
    if wire == WIRE_VARINT then SkipVarint(b)
    else if wire == WIRE_64BIT then if |b| < 8 then None else Some(b[8..])
    else if wire == WIRE_32BIT then if |b| < 4 then None else Some(b[4..])
    else if wire == WIRE_STRING then
      match DecodeString(b)
      case None => None
      case Some(t) => Some(t.rest)
    else None
  }

  function FindTag(fields: seq<Field>, tag: nat): (r: Option<nat>)
    ensures r.Some? ==> r.value < |fields| && fields[r.value].tag == tag
    ensures r.None? ==> forall i :: 0 <= i < |fields| ==> fields[i].tag != tag
  {
    if fields == [] then None
    else if fields[|fields| - 1].tag == tag then Some(|fields| - 1)
    else FindTag(fields[..|fields| - 1], tag)
  }

  const MAX_REQUIRED_FIELDS := 64

  function RequiredCount(fields: seq<Field>): nat {
    if fields == [] then 0
    else RequiredCount(fields[..|fields| - 1]) + if fields[|fields| - 1].rule.Required? then 1 else 0
  }

  /** Positions of the required fields that are checked for: the first 64. */
  function RequiredFields(fields: seq<Field>): set<nat> {
    set i | 0 <= i < |fields| && fields[i].rule.Required? && RequiredCount(fields[..i]) < MAX_REQUIRED_FIELDS
  }

  /** Decodes a value; a submessage is decoded into what is there already. */
  function DecodeValue(k: DataType, current: Value, b: seq<Byte>): (r: Option<Taken<Value>>)
    ensures r.Some? ==> |r.value.rest| < |b|
    decreases k, 0
  {
    match k
    case Submessage(fields) =>
      (match DecodeString(b)
       case None => None
       case Some(t) =>
         match DecodeFields(fields, t.v, if current.Message? && |current.slots| == |fields| then current.slots else DefaultSlots(fields), {})
         case None => None
         case Some(slots) => Some(Taken(Message(slots), t.rest)))
    case _ => DecodeScalar(k, b)
  }

  /** The items of a packed array, as many as there is room for; all bytes must be used. */
  function DecodePacked(k: DataType, vs: seq<Value>, max: nat, b: seq<Byte>): Option<seq<Value>>
    decreases k, 1, |b|
  {
    if b == [] then Some(vs)
    else if |vs| >= max then None
    else
      match DecodeValue(k, DefaultValue(k), b)
      case None => None
      case Some(t) => DecodePacked(k, vs + [t.v], max, t.rest)
  }

  function DecodeField(f: Field, s: Slot, wire: nat, b: seq<Byte>): (r: Option<Taken<Slot>>)
    ensures r.Some? ==> |r.value.rest| < |b|
    decreases f, 2
  {
    match f.rule
    case Required =>
      (match DecodeValue(f.kind, if s.One? then s.v else DefaultValue(f.kind), b)
       case None => None
       case Some(t) => Some(Taken(One(t.v), t.rest)))
    case Optional =>
      (match DecodeValue(f.kind, if s.Perhaps? && s.o.Some? then s.o.value else DefaultValue(f.kind), b)
       case None => None
       case Some(t) => Some(Taken(Perhaps(Some(t.v)), t.rest)))
    case Repeated(max) =>
      var vs := if s.Many? then s.vs else [];
      if wire == WIRE_STRING && Packable(f.kind) then
        match DecodeString(b)
        case None => None
        case Some(t) =>
          match DecodePacked(f.kind, vs, max, t.v)
          case None => None
          case Some(all) => Some(Taken(Many(all), t.rest))
      else if |vs| >= max then None
      else
        match DecodeValue(f.kind, DefaultValue(f.kind), b)
        case None => None
        case Some(t) => Some(Taken(Many(vs + [t.v]), t.rest))
  }

  /** Field after field until the bytes end, or a zero tag; unknown fields are skipped, and every
      required field must have come. */
  function DecodeFields(fields: seq<Field>, b: seq<Byte>, slots: seq<Slot>, seen: set<nat>): (r: Option<seq<Slot>>)
    requires |slots| == |fields|
    ensures r.Some? ==> |r.value| == |fields|
    decreases fields, 3, |b|
  {
    if b == [] then Finished(fields, slots, seen)
    else
      match DecodeVarint32(b)
      case None => None
      case Some((key, n)) =>
        if key == 0 then Finished(fields, slots, seen)
        else
          match FindTag(fields, key / 8)
          case None =>
            (match SkipField(key % 8, b[n..])
             case None => None
             case Some(rest) => DecodeFields(fields, rest, slots, seen))
          case Some(i) =>
            match DecodeField(fields[i], slots[i], key % 8, b[n..])
            case None => None
            case Some(t) => DecodeFields(fields, t.rest, slots[i := t.v], seen + {i})
  }

  function Finished(fields: seq<Field>, slots: seq<Slot>, seen: set<nat>): Option<seq<Slot>> {
    if RequiredFields(fields) <= seen then Some(slots) else None
  }

  function DecodeMessage(fields: seq<Field>, b: seq<Byte>): Option<seq<Slot>> {
    DecodeFields(fields, b, DefaultSlots(fields), {})
  }

  // ----- Round trips of the parts -----

  lemma Varint64RoundTrip(v: nat, rest: seq<Byte>)
    requires v < TWO_64
    ensures DecodeVarint64(EncodeVarint(v) + rest) == Some((v, |EncodeVarint(v)|))
  {
    hide Power128, DecodeVarint, EncodeVarint;
    Uint64FitsVarint(v);
    VarintRoundTrip(v, MAX_VARINT64_BYTES, rest);
  }

  lemma OneMoreByte(b: seq<Byte>, bitpos: nat, result: nat, used: nat, low: nat)
    requires b != [] && b[0] as int == low + 128 && low < 128 && bitpos < 28 && result + low * Weight(bitpos) < TWO_32
    ensures DecodeVarint32Rest(b, bitpos, result, used) == DecodeVarint32Rest(b[1..], bitpos + 7, result + low * Weight(bitpos), used + 1)
  {
    hide Weight;
    var byte: nat := b[0];
    assert byte >= 128 && byte % 128 == low;
    assert (result + low * Weight(bitpos)) % TWO_32 == result + low * Weight(bitpos);
  }

  lemma LastByteOf32(b: seq<Byte>, bitpos: nat, result: nat, used: nat, low: nat)
    requires b != [] && b[0] as int == low < 128 && bitpos in {7, 14, 21, 28} && result + low * Weight(bitpos) < TWO_32
    ensures DecodeVarint32Rest(b, bitpos, result, used) == Some((result + low * Weight(bitpos), used + 1))
  {
  }

  lemma Weights(bitpos: nat, high: nat, result: nat)
    requires bitpos in {7, 14, 21, 28} && high >= 128 && result + high * Weight(bitpos) < TWO_32
    ensures bitpos < 28 && bitpos + 7 in {7, 14, 21, 28}
    ensures result + high % 128 * Weight(bitpos) + high / 128 * Weight(bitpos + 7) == result + high * Weight(bitpos)
    ensures result < Weight(bitpos) ==> result + high % 128 * Weight(bitpos) < Weight(bitpos + 7)
  {
  }

  /** The bytes of a number behind the first are read back. */
  lemma {:induction false} Varint32RestRoundTrip(high: nat, rest: seq<Byte>, bitpos: nat, result: nat, used: nat)
    requires bitpos in {7, 14, 21, 28} && result < Weight(bitpos) && result + high * Weight(bitpos) < TWO_32
    ensures DecodeVarint32Rest(EncodeVarint(high) + rest, bitpos, result, used) == Some((result + high * Weight(bitpos), used + |EncodeVarint(high)|))
    decreases high
  {
    hide DecodeVarint32Rest, Weight;
    var b := EncodeVarint(high) + rest;
    if high >= 128 {
      Weights(bitpos, high, result);
      assert b[1..] == EncodeVarint(high / 128) + rest;
      OneMoreByte(b, bitpos, result, used, high % 128);
      Varint32RestRoundTrip(high / 128, rest, bitpos + 7, result + high % 128 * Weight(bitpos), used + 1);
    } else {
      LastByteOf32(b, bitpos, result, used, high);
    }
  }

  lemma ReadVarint32RoundTrip(v: nat, rest: seq<Byte>)
    requires v < TWO_32
    ensures DecodeVarint32(EncodeVarint(v) + rest) == Some((v, |EncodeVarint(v)|))
  {
    if v >= 128 {
      assert (EncodeVarint(v) + rest)[1..] == EncodeVarint(v / 128) + rest;
      Varint32RestRoundTrip(v / 128, rest, 7, v % 128, 1);
    }
  }

  lemma StringRoundTrip(b: seq<Byte>, rest: seq<Byte>)
    requires |b| < TWO_32
    ensures DecodeString(EncodeString(b) + rest) == Some(Taken(b, rest))
  {
    ReadVarint32RoundTrip(|b|, b + rest);
    assert EncodeString(b) + rest == EncodeVarint(|b|) + (b + rest);
  }

  lemma ZigzagRoundTrip(n: int)
    ensures Unzigzag(Zigzag(n)) == n
  {
  }

  lemma SignedRoundTrip(n: int, size: nat)
    requires size in {1, 2, 4, 8} && -Half(size) <= n < Half(size)
    ensures var bits := if n < 0 then n + TWO_64 else n;
            && 0 <= bits < TWO_64 && Signed(bits, if size == 8 then 8 else 4) == n && Signed(bits, size) == n
  {
    assert size == 8 || Half(size) <= Half(4);
    hide Signed;
    CastBack(n, size);
    CastBack(n, if size == 8 then 8 else 4);
  }

  /** Two's complement in 64 bits, cut down to any size that holds the number. */
  lemma CastBack(n: int, size: nat)
    requires size in {1, 2, 4, 8} && -Half(size) <= n < Half(size)
    ensures var bits := if n < 0 then n + TWO_64 else n;
            0 <= bits < TWO_64 && Signed(bits, size) == n
  {
    var bits := if n < 0 then n + TWO_64 else n;
    if size == 1 {
      CastByte(n, bits);
    } else if size == 2 {
      CastShort(n, bits);
    } else if size == 4 {
      CastInt(n, bits);
    }
  }

  lemma CastByte(n: int, bits: nat)
    requires -0x80 <= n < 0x80 && bits == if n < 0 then n + TWO_64 else n
    ensures Signed(bits, 1) == n
  {
  }

  lemma CastShort(n: int, bits: nat)
    requires -0x8000 <= n < 0x8000 && bits == if n < 0 then n + TWO_64 else n
    ensures Signed(bits, 2) == n
  {
  }

  lemma CastInt(n: int, bits: nat)
    requires -0x8000_0000 <= n < 0x8000_0000 && bits == if n < 0 then n + TWO_64 else n
    ensures Signed(bits, 4) == n
  {
  }

  lemma {:induction false} NoZero(b: seq<Byte>)
    requires forall i :: 0 <= i < |b| ==> b[i] != 0
    ensures UpToZero(b) == b
  {
    if b != [] {
      NoZero(b[1..]);
    }
  }

  // ----- The round trip of messages -----

  lemma ScalarRoundTrip(k: DataType, v: Value, rest: seq<Byte>)
    requires !k.Submessage? && GoodType(k) && FitsValue(k, v) && |EncodeValue(k, v)| < TWO_32
    ensures DecodeScalar(k, EncodeValue(k, v) + rest) == Some(Taken(v, rest))
  {
    hide DecodeString, DecodeVarint64, EncodeVarint, DecodeFixed32, DecodeFixed64, EncodeFixed32, EncodeFixed64, Signed, Unzigzag, Zigzag;
    match k
    case Varint(size) =>
      SignedRoundTrip(v.n, size);
      Varint64RoundTrip(if v.n < 0 then v.n + TWO_64 else v.n, rest);
    case UVarint(size) =>
      Varint64RoundTrip(v.n, rest);
    case SVarint(size) =>
      ZigzagRoundTrip(v.n);
      ZigzagFits(v.n, size);
      Varint64RoundTrip(Zigzag(v.n), rest);
    case Fixed32 =>
      DecodeEncodeFixed32(v.n, rest);
    case Fixed64 =>
      Fixed64RoundTrip(v.n, rest);
    case Data(_) =>
      StringRoundTrip(v.b, rest);
    case Text(_) =>
      StringRoundTrip(v.b, rest);
      NoZero(v.b);
    case FixedData(size) =>
      StringRoundTrip(v.b, rest);
  }

  lemma ZigzagFits(n: int, size: nat)
    requires size in {1, 2, 4, 8} && -Half(size) <= n < Half(size)
    ensures Zigzag(n) < TWO_64
  {
  }

  lemma EncodedNotEmpty(k: DataType, v: Value)
    requires FitsValue(k, v) && GoodType(k)
    ensures EncodeValue(k, v) != []
  {
    hide EncodeVarint;
  }

  /** With unique tags a field is found by its tag. */
  lemma {:induction false} FindByTag(fields: seq<Field>, i: nat)
    requires i < |fields| && forall a, b :: 0 <= a < b < |fields| ==> fields[a].tag != fields[b].tag
    ensures FindTag(fields, fields[i].tag) == Some(i)
  {
    if i < |fields| - 1 {
      FindByTag(fields[..|fields| - 1], i);
    }
  }

  /** A tag leads to its field. */
  lemma TagStep(fields: seq<Field>, i: nat, wire: nat, payload: seq<Byte>, slots: seq<Slot>, seen: set<nat>)
    requires GoodFields(fields) && i < |fields| == |slots| && wire < 8
    ensures DecodeFields(fields, EncodeTag(fields[i].tag, wire) + payload, slots, seen) ==
            match DecodeField(fields[i], slots[i], wire, payload)
            case None => None
            case Some(t) => DecodeFields(fields, t.rest, slots[i := t.v], seen + {i})
  {
    var key := fields[i].tag * 8 + wire;
    var b := EncodeTag(fields[i].tag, wire) + payload;
    assert key < TWO_32 && key / 8 == fields[i].tag && key % 8 == wire && key > 0;
    ReadVarint32RoundTrip(key, payload);
    FindByTag(fields, i);
    assert b[|EncodeVarint(key)|..] == payload;
    hide DecodeVarint32, EncodeVarint, DecodeField, FindTag, GoodFields;
    assert b != [];
  }

  /** The bytes of a value are decoded into it, whatever follows. */
  lemma {:induction false} ValueRoundTrip(k: DataType, v: Value, rest: seq<Byte>)
    requires GoodType(k) && FitsValue(k, v) && |EncodeValue(k, v)| < TWO_32
    ensures DecodeValue(k, DefaultValue(k), EncodeValue(k, v) + rest) == Some(Taken(v, rest))
    decreases k, 0
  {
    if k.Submessage? {
      var fields := k.fields;
      var body := EncodeFields(fields, v.slots, |fields|);
      MessageRoundTrip(fields, v.slots);
      StringRoundTrip(body, rest);
    } else {
      ScalarRoundTrip(k, v, rest);
    }
  }

  lemma {:induction false} PackedRoundTrip(k: DataType, vs: seq<Value>, n: nat, max: nat, tail: seq<Byte>)
    requires GoodType(k) && n <= |vs| <= max && forall i :: 0 <= i < |vs| ==> FitsValue(k, vs[i])
    requires |EncodeItems(k, vs, n)| < TWO_32
    ensures DecodePacked(k, [], max, EncodeItems(k, vs, n) + tail) == DecodePacked(k, vs[..n], max, tail)
    decreases k, 1, n
  {
    hide EncodeValue, DecodeValue, FitsValue, GoodType, DefaultValue;
    if n == 0 {
      assert EncodeItems(k, vs, n) + tail == tail && vs[..0] == [];
    } else {
      var last := EncodeValue(k, vs[n - 1]);
      PackedRoundTrip(k, vs, n - 1, max, last + tail);
      assert EncodeItems(k, vs, n) + tail == EncodeItems(k, vs, n - 1) + (last + tail);
      ValueRoundTrip(k, vs[n - 1], tail);
      EncodedNotEmpty(k, vs[n - 1]);
      assert vs[..n - 1] + [vs[n - 1]] == vs[..n];
    }
  }

  /** One more item of an array, also of one that could have been packed. */
  lemma {:induction false} ItemStep(fields: seq<Field>, i: nat, before: seq<Value>, v: Value, rest: seq<Byte>, slots: seq<Slot>, seen: set<nat>)
    requires GoodFields(fields) && i < |fields| == |slots| && fields[i].rule.Repeated?
    requires slots[i] == Many(before) && |before| < fields[i].rule.max
    requires GoodField(fields[i]) && FitsValue(fields[i].kind, v) && |EncodeValue(fields[i].kind, v)| < TWO_32
    ensures var f := fields[i];
            DecodeFields(fields, EncodeTag(f.tag, WireType(f.kind)) + (EncodeValue(f.kind, v) + rest), slots, seen) ==
            DecodeFields(fields, rest, slots[i := Many(before + [v])], seen + {i})
    decreases fields[i], 0
  {
    var f := fields[i];
    assert WireType(f.kind) < 8 && !(WireType(f.kind) == WIRE_STRING && Packable(f.kind));
    TagStep(fields, i, WireType(f.kind), EncodeValue(f.kind, v) + rest, slots, seen);
    ValueRoundTrip(f.kind, v, rest);
    hide EncodeValue, DecodeValue, DecodeFields, FitsValue, GoodType, DefaultValue, EncodeTag, GoodFields, WireType;
  }

  /** An array whose items each have their tag. */
  lemma {:induction false} TaggedRoundTrip(fields: seq<Field>, i: nat, vs: seq<Value>, n: nat, rest: seq<Byte>,
                                           slots: seq<Slot>, seen: set<nat>)
    requires GoodFields(fields) && i < |fields| == |slots| && n <= |vs|
    requires fields[i].rule.Repeated? && |vs| <= fields[i].rule.max && slots[i] == Many([])
    requires forall j :: 0 <= j < |vs| ==> FitsValue(fields[i].kind, vs[j])
    requires GoodField(fields[i]) && |EncodeTagged(fields[i], vs, n)| < TWO_32
    ensures DecodeFields(fields, EncodeTagged(fields[i], vs, n) + rest, slots, seen) ==
            DecodeFields(fields, rest, slots[i := Many(vs[..n])], if n == 0 then seen else seen + {i})
    decreases fields[i], 1, n
  {
    var f := fields[i];
    var none: seq<Value> := [];
    assert vs[..0] == none;
    if n == 0 {
      assert EncodeTagged(f, vs, n) + rest == rest && slots[i := Many(none)] == slots;
    } else {
      var v, before := vs[n - 1], vs[..n - 1];
      var tag, value := EncodeTag(f.tag, WireType(f.kind)), EncodeValue(f.kind, v);
      var earlier := EncodeTagged(f, vs, n - 1);
      assert EncodeTagged(f, vs, n) == earlier + tag + value;
      var slots', seen' := slots[i := Many(before)], if n == 1 then seen else seen + {i};
      TaggedRoundTrip(fields, i, vs, n - 1, tag + (value + rest), slots, seen);
      hide *;
      Assoc3(earlier, tag, value, rest);
      ItemStep(fields, i, before, v, rest, slots', seen');
      UpdatedTwice(slots, i, Many(before), Many(vs[..n]), vs, n);
      assert seen' + {i} == seen + {i};
    }
  }

  lemma Assoc3(a: seq<Byte>, b: seq<Byte>, c: seq<Byte>, d: seq<Byte>)
    ensures a + b + c + d == a + (b + (c + d))
  {
  }

  lemma UpdatedTwice(slots: seq<Slot>, i: nat, s: Slot, t: Slot, vs: seq<Value>, n: nat)
    requires i < |slots| && 0 < n <= |vs|
    ensures slots[i := s][i := t] == slots[i := t]
    ensures vs[..n - 1] + [vs[n - 1]] == vs[..n]
  {
  }

  /** Whether a slot leaves anything in the bytes. */
  predicate Present(s: Slot) {
    s.One? || (s.Perhaps? && s.o.Some?) || (s.Many? && s.vs != [])
  }

  lemma {:induction false} FieldRoundTrip(fields: seq<Field>, i: nat, s: Slot, rest: seq<Byte>, slots: seq<Slot>, seen: set<nat>)
    requires GoodFields(fields) && i < |fields| == |slots| && FitsSlot(fields[i], s) && slots[i] == DefaultSlot(fields[i])
    requires GoodField(fields[i]) && |EncodeField(fields[i], s)| < TWO_32
    ensures DecodeFields(fields, EncodeField(fields[i], s) + rest, slots, seen) ==
            DecodeFields(fields, rest, slots[i := s], if Present(s) then seen + {i} else seen)
    decreases fields[i], 2
  {
    var f := fields[i];
    if !Present(s) {
      assert EncodeField(f, s) + rest == rest && slots[i := s] == slots;
    } else if f.rule.Repeated? && Packable(f.kind) {
      var items := EncodeItems(f.kind, s.vs, |s.vs|);
      var none: seq<Byte> := [];
      assert EncodeField(f, s) + rest == EncodeTag(f.tag, WIRE_STRING) + (EncodeString(items) + rest);
      TagStep(fields, i, WIRE_STRING, EncodeString(items) + rest, slots, seen);
      hide GoodFields, FitsValue, EncodeTag;
      StringRoundTrip(items, rest);
      PackedRoundTrip(f.kind, s.vs, |s.vs|, f.rule.max, none);
      assert items + none == items && s.vs[..|s.vs|] == s.vs;
    } else if f.rule.Repeated? {
      TaggedRoundTrip(fields, i, s.vs, |s.vs|, rest, slots, seen);
      assert s.vs[..|s.vs|] == s.vs;
    } else {
      var v := if f.rule.Required? then s.v else s.o.value;
      assert EncodeField(f, s) + rest == EncodeTag(f.tag, WireType(f.kind)) + (EncodeValue(f.kind, v) + rest);
      TagStep(fields, i, WireType(f.kind), EncodeValue(f.kind, v) + rest, slots, seen);
      ValueRoundTrip(f.kind, v, rest);
    }
  }

  /** A message of which the first `n` fields have been decoded. */
  function Partly(fields: seq<Field>, slots: seq<Slot>, n: nat): (r: seq<Slot>)
    requires n <= |fields| == |slots|
    ensures |r| == |fields|
  {
    slots[..n] + DefaultSlots(fields)[n..]
  }

  function PresentFields(slots: seq<Slot>, n: nat): set<nat>
    requires n <= |slots|
  {
    set i | 0 <= i < n && Present(slots[i])
  }

  lemma {:induction false} FieldsRoundTrip(fields: seq<Field>, slots: seq<Slot>, n: nat, rest: seq<Byte>)
    requires GoodFields(fields) && FitsAll(fields, slots) && n <= |fields| && |EncodeFields(fields, slots, n)| < TWO_32
    ensures DecodeFields(fields, EncodeFields(fields, slots, n) + rest, DefaultSlots(fields), {}) ==
            DecodeFields(fields, rest, Partly(fields, slots, n), PresentFields(slots, n))
    decreases fields, 3, n
  {
    if n == 0 {
      NothingYet(fields, slots, rest);
    } else {
      var i := n - 1;
      var last := EncodeField(fields[i], slots[i]);
      assert GoodField(fields[i]) && FitsSlot(fields[i], slots[i]);
      assert EncodeFields(fields, slots, n) == EncodeFields(fields, slots, i) + last;
      PartlyStep(fields, slots, i);
      hide EncodeField, EncodeFields, DecodeFields, FitsSlot, FitsAll, DefaultSlot, DefaultSlots, GoodFields, GoodField, Present, Partly, PresentFields;
      FieldsRoundTrip(fields, slots, i, last + rest);
      Assoc(EncodeFields(fields, slots, i), last, rest);
      FieldRoundTrip(fields, i, slots[i], rest, Partly(fields, slots, i), PresentFields(slots, i));
    }
  }

  lemma NothingYet(fields: seq<Field>, slots: seq<Slot>, rest: seq<Byte>)
    requires GoodFields(fields) && FitsAll(fields, slots)
    ensures EncodeFields(fields, slots, 0) + rest == rest
    ensures Partly(fields, slots, 0) == DefaultSlots(fields) && PresentFields(slots, 0) == {}
  {
  }

  lemma PartlyStep(fields: seq<Field>, slots: seq<Slot>, i: nat)
    requires i < |fields| == |slots|
    ensures Partly(fields, slots, i)[i] == DefaultSlot(fields[i])
    ensures Partly(fields, slots, i)[i := slots[i]] == Partly(fields, slots, i + 1)
    ensures PresentFields(slots, i + 1) == if Present(slots[i]) then PresentFields(slots, i) + {i} else PresentFields(slots, i)
  {
    hide Present, DefaultSlot;
  }

  /** Decoding the bytes of a message gives the message back. */
  lemma {:induction false} MessageRoundTrip(fields: seq<Field>, slots: seq<Slot>)
    requires GoodFields(fields) && FitsAll(fields, slots) && |EncodeMessage(fields, slots)| < TWO_32
    ensures DecodeMessage(fields, EncodeMessage(fields, slots)) == Some(slots)
    decreases fields, 4
  {
    var none: seq<Byte> := [];
    FieldsRoundTrip(fields, slots, |fields|, none);
    assert EncodeMessage(fields, slots) + none == EncodeMessage(fields, slots);
    assert Partly(fields, slots, |fields|) == slots;
    assert RequiredFields(fields) <= PresentFields(slots, |fields|) by {
      forall i | i in RequiredFields(fields) ensures Present(slots[i]) {
        assert FitsSlot(fields[i], slots[i]);
      }
    }
  }
}
