/** The streams of the protocol-buffer codec: writing, or only counting, the bytes of a message, and
    reading them back by loops. */
module NanopbStreams {
  import opened Entries
  import opened Coding
  import opened Nanopb

  /** An output stream; one without a destination only counts. */
  class OStream {
    const sizing: bool
    const maxSize: nat
    var bytesWritten: nat
    var buffer: seq<Byte>

    constructor (sizing_: bool, maxSize_: nat)
      ensures Room() && sizing == sizing_ && maxSize == maxSize_ && bytesWritten == 0 && buffer == []
    {
      sizing, maxSize := sizing_, maxSize_;
      bytesWritten, buffer := 0, [];
    }

    predicate Room()
      reads this
    {
      sizing || bytesWritten <= maxSize
    }

    /** These bytes have been put behind the first `written`, unless there was no room for them. */
    ghost predicate Wrote(ok: bool, written: nat, before: seq<Byte>, bytes: seq<Byte>)
      reads this
    {
      && Room() && (ok <==> sizing || written + |bytes| <= maxSize)
      && (ok ==> bytesWritten == written + |bytes| && (!sizing ==> buffer == before + bytes))
    }

    method Write(bytes: seq<Byte>) returns (ok: bool)
      requires Room()
      modifies this
      ensures Wrote(ok, old(bytesWritten), old(buffer), bytes)
    {
      if !sizing {
        if bytesWritten + |bytes| > maxSize {
          return false;
        }
        buffer := buffer + bytes;
      }
      bytesWritten := bytesWritten + |bytes|;
      ok := true;
    }

    method WriteVarint(value: nat) returns (ok: bool)
      requires Room()
      modifies this
      ensures Wrote(ok, old(bytesWritten), old(buffer), EncodeVarint(value))
    {
      if value <= 0x7f {
        ok := Write([value]);
        return;
      }
      var v, bytes: seq<Byte> := value, [];
      while v != 0
        invariant unchanged(this)
        invariant EncodeVarint(value) == if v == 0 then WithoutLastBit(bytes) else bytes + EncodeVarint(v)
        invariant v == 0 ==> bytes != [] && bytes[|bytes| - 1] >= 128
        decreases v
      {
        var low: nat := v % 128;
        LastGroup(v, bytes);
        hide EncodeVarint, WithoutLastBit;
        bytes := bytes + [low + 128];
        v := v / 128;
      }
      ok := Write(WithoutLastBit(bytes));
    }

    method WriteString(bytes: seq<Byte>) returns (ok: bool)
      requires Room()
      modifies this
      ensures Wrote(ok, old(bytesWritten), old(buffer), EncodeString(bytes))
    {
      ok := WriteVarint(|bytes|);
      if ok {
        ok := Write(bytes);
      }
    }

    method WriteTag(tag: nat, wire: nat) returns (ok: bool)
      requires Room()
      modifies this
      ensures Wrote(ok, old(bytesWritten), old(buffer), EncodeTag(tag, wire))
    {
      ok := WriteVarint(tag * 8 + wire);
    }
  }

  /** The top bit of the last byte is taken back. */
  function WithoutLastBit(bytes: seq<Byte>): seq<Byte> {
    if bytes == [] || bytes[|bytes| - 1] < 128 then bytes
    else
      var last: nat := bytes[|bytes| - 1];
      bytes[..|bytes| - 1] + [last - 128]
  }

  lemma LastGroup(v: nat, bytes: seq<Byte>)
    requires v > 0
    ensures var low: nat := v % 128;
            var more := bytes + [low + 128];
            bytes + EncodeVarint(v) == if v / 128 == 0 then WithoutLastBit(more) else more + EncodeVarint(v / 128)
  {
  }

  // ----- Writing messages -----

  method WriteValue(out: OStream, k: DataType, v: Value) returns (ok: bool)
    requires GoodType(k) && FitsValue(k, v)
    requires out.Room()
    modifies out
    ensures out.Wrote(ok, old(out.bytesWritten), old(out.buffer), EncodeValue(k, v))
    decreases k, 0
  {
    match k
    case Varint(_) => ok := out.WriteVarint(if v.n < 0 then v.n + TWO_64 else v.n);
    case UVarint(_) => ok := out.WriteVarint(v.n);
    case SVarint(_) => ok := out.WriteVarint(Zigzag(v.n));
    case Fixed32 => ok := out.Write(EncodeFixed32(v.n));
    case Fixed64 => ok := out.Write(EncodeFixed64(v.n));
    case Submessage(fields) => ok := WriteSubmessage(out, fields, v.slots);
    case _ => ok := out.WriteString(v.b);
  }

  /** First a pass that only counts; then the length, and the bytes through a stream of just that size. */
  method WriteSubmessage(out: OStream, fields: seq<Field>, slots: seq<Slot>) returns (ok: bool)
    requires GoodFields(fields) && FitsAll(fields, slots)
    requires out.Room()
    modifies out
    ensures out.Wrote(ok, old(out.bytesWritten), old(out.buffer), EncodeString(EncodeFields(fields, slots, |fields|)))
    decreases fields, 5
  {
    hide EncodeFields, EncodeVarint, GoodFields, FitsAll;
    var counter := new OStream(true, 0);
    ok := WriteMessage(counter, fields, slots);
    var size := counter.bytesWritten;
    ok := out.WriteVarint(size);
    if !ok {
      return;
    }
    if out.sizing {
      out.bytesWritten := out.bytesWritten + size;
      return;
    }
    if out.bytesWritten + size > out.maxSize {
      return false;
    }
    var sub := new OStream(false, size);
    ok := WriteMessage(sub, fields, slots);
    out.bytesWritten := out.bytesWritten + sub.bytesWritten;
    out.buffer := out.buffer + sub.buffer;
    if sub.bytesWritten != size {
      ok := false;
    }
  }

  /** Writing one part after another is writing them together. */
  lemma Joined(out: OStream, written: nat, before: seq<Byte>, a: seq<Byte>, b: seq<Byte>)
    requires out.Wrote(true, written + |a|, before + a, b)
    ensures out.Wrote(true, written, before, a + b)
  {
    assert before + a + b == before + (a + b);
  }

  method WriteTagged(out: OStream, f: Field, v: Value) returns (ok: bool)
    requires GoodField(f) && FitsValue(f.kind, v)
    requires out.Room()
    modifies out
    ensures out.Wrote(ok, old(out.bytesWritten), old(out.buffer), EncodeTag(f.tag, WireType(f.kind)) + EncodeValue(f.kind, v))
    decreases f, 0
  {
    hide EncodeTag, EncodeValue, FitsValue, GoodType;
    ok := out.WriteTag(f.tag, WireType(f.kind));
    if ok {
      ok := WriteValue(out, f.kind, v);
      if ok {
        Joined(out, old(out.bytesWritten), old(out.buffer), EncodeTag(f.tag, WireType(f.kind)), EncodeValue(f.kind, v));
      }
    }
  }

  /** The first items are no longer than all of them. */
  lemma {:induction false} ItemsGrow(k: DataType, vs: seq<Value>, m: nat, n: nat)
    requires GoodType(k) && m <= n <= |vs| && forall i :: 0 <= i < |vs| ==> FitsValue(k, vs[i])
    ensures |EncodeItems(k, vs, m)| <= |EncodeItems(k, vs, n)|
    decreases n
  {
    if m < n {
      ItemsGrow(k, vs, m, n - 1);
      assert EncodeItems(k, vs, n) == EncodeItems(k, vs, n - 1) + EncodeValue(k, vs[n - 1]);
      hide *;
    }
  }

  lemma {:induction false} TaggedGrow(f: Field, vs: seq<Value>, m: nat, n: nat)
    requires GoodField(f) && m <= n <= |vs| && forall i :: 0 <= i < |vs| ==> FitsValue(f.kind, vs[i])
    ensures |EncodeTagged(f, vs, m)| <= |EncodeTagged(f, vs, n)|
    decreases n
  {
    if m < n {
      TaggedGrow(f, vs, m, n - 1);
    }
  }

  lemma {:induction false} FieldsGrow(fields: seq<Field>, slots: seq<Slot>, m: nat, n: nat)
    requires GoodFields(fields) && FitsAll(fields, slots) && m <= n <= |fields|
    ensures |EncodeFields(fields, slots, m)| <= |EncodeFields(fields, slots, n)|
    decreases n
  {
    if m < n {
      FieldsGrow(fields, slots, m, n - 1);
    }
  }

  method WriteItems(out: OStream, k: DataType, vs: seq<Value>) returns (ok: bool)
    requires GoodType(k) && forall i :: 0 <= i < |vs| ==> FitsValue(k, vs[i])
    requires out.Room()
    modifies out
    ensures out.Wrote(ok, old(out.bytesWritten), old(out.buffer), EncodeItems(k, vs, |vs|))
    decreases k, 1
  {
    hide EncodeValue, FitsValue, GoodType;
    ok := true;
    assert old(out.buffer) + EncodeItems(k, vs, 0) == old(out.buffer);
    for i := 0 to |vs|
      invariant out.Wrote(true, old(out.bytesWritten), old(out.buffer), EncodeItems(k, vs, i)) && ok
    {
      ok := WriteValue(out, k, vs[i]);
      if !ok {
        ItemsGrow(k, vs, i + 1, |vs|);
        return;
      }
      Joined(out, old(out.bytesWritten), old(out.buffer), EncodeItems(k, vs, i), EncodeValue(k, vs[i]));
    }
  }

  /** A packed array: its size by a pass that only counts, unless the items are all of one size. */
  method WritePacked(out: OStream, f: Field, vs: seq<Value>) returns (ok: bool)
    requires GoodField(f) && vs != [] && forall i :: 0 <= i < |vs| ==> FitsValue(f.kind, vs[i])
    requires out.Room()
    modifies out
    ensures out.Wrote(ok, old(out.bytesWritten), old(out.buffer),
                      EncodeTag(f.tag, WIRE_STRING) + EncodeString(EncodeItems(f.kind, vs, |vs|)))
    decreases f, 0
  {
    hide EncodeItems, FitsValue, EncodeVarint, GoodType;
    ok := out.WriteTag(f.tag, WIRE_STRING);
    if ok {
      ok := WritePackedItems(out, f.kind, vs);
      if ok {
        Joined(out, old(out.bytesWritten), old(out.buffer), EncodeTag(f.tag, WIRE_STRING), EncodeString(EncodeItems(f.kind, vs, |vs|)));
      }
    }
  }

  lemma {:induction false} FixedItems(k: DataType, vs: seq<Value>, n: nat)
    requires GoodType(k) && n <= |vs| && forall i :: 0 <= i < |vs| ==> FitsValue(k, vs[i])
    ensures k.Fixed32? ==> |EncodeItems(k, vs, n)| == 4 * n
    ensures k.Fixed64? ==> |EncodeItems(k, vs, n)| == 8 * n
  {
    if n > 0 {
      FixedItems(k, vs, n - 1);
    }
  }

  method WritePackedItems(out: OStream, k: DataType, vs: seq<Value>) returns (ok: bool)
    requires GoodType(k) && vs != [] && forall i :: 0 <= i < |vs| ==> FitsValue(k, vs[i])
    requires out.Room()
    modifies out
    ensures out.Wrote(ok, old(out.bytesWritten), old(out.buffer), EncodeString(EncodeItems(k, vs, |vs|)))
    decreases k, 2
  {
    hide EncodeItems, FitsValue, EncodeVarint, GoodType;
    var size;
    FixedItems(k, vs, |vs|);
    if k.Fixed32? {
      size := 4 * |vs|;
    } else if k.Fixed64? {
      size := 8 * |vs|;
    } else {
      var counter := new OStream(true, 0);
      ok := WriteItems(counter, k, vs);
      size := counter.bytesWritten;
    }
    ok := out.WriteVarint(size);
    if !ok {
      return;
    }
    if out.sizing {
      out.bytesWritten := out.bytesWritten + size;
      return;
    }
    ok := WriteItems(out, k, vs);
    if ok {
      Joined(out, old(out.bytesWritten), old(out.buffer), EncodeVarint(size), EncodeItems(k, vs, |vs|));
    }
  }

  method WriteUnpacked(out: OStream, f: Field, vs: seq<Value>) returns (ok: bool)
    requires GoodField(f) && forall i :: 0 <= i < |vs| ==> FitsValue(f.kind, vs[i])
    requires out.Room()
    modifies out
    ensures out.Wrote(ok, old(out.bytesWritten), old(out.buffer), EncodeTagged(f, vs, |vs|))
    decreases f, 1
  {
    hide EncodeValue, EncodeTag, WireType, FitsValue, GoodType;
    ok := true;
    assert old(out.buffer) + EncodeTagged(f, vs, 0) == old(out.buffer);
    for i := 0 to |vs|
      invariant out.Wrote(true, old(out.bytesWritten), old(out.buffer), EncodeTagged(f, vs, i)) && ok
    {
      var tag, value := EncodeTag(f.tag, WireType(f.kind)), EncodeValue(f.kind, vs[i]);
      assert EncodeTagged(f, vs, i + 1) == EncodeTagged(f, vs, i) + (tag + value);
      ok := WriteTagged(out, f, vs[i]);
      if !ok {
        TaggedGrow(f, vs, i + 1, |vs|);
        return;
      }
      Joined(out, old(out.bytesWritten), old(out.buffer), EncodeTagged(f, vs, i), tag + value);
    }
  }

  method WriteField(out: OStream, f: Field, s: Slot) returns (ok: bool)
    requires GoodField(f) && FitsSlot(f, s)
    requires out.Room()
    modifies out
    ensures out.Wrote(ok, old(out.bytesWritten), old(out.buffer), EncodeField(f, s))
    decreases f, 2
  {
    hide EncodeValue, EncodeTag, EncodeItems, EncodeTagged, EncodeString, FitsValue, GoodType;
    var none: seq<Byte> := [];
    assert out.buffer + none == out.buffer;
    match f.rule
    case Required => ok := WriteTagged(out, f, s.v);
    case Optional =>
      ok := true;
      if s.o.Some? {
        ok := WriteTagged(out, f, s.o.value);
      }
    case Repeated(_) =>
      ok := true;
      if s.vs != [] {
        if Packable(f.kind) {
          ok := WritePacked(out, f, s.vs);
        } else {
          ok := WriteUnpacked(out, f, s.vs);
        }
      }
  }

  /** All fields in order. */
  method WriteMessage(out: OStream, fields: seq<Field>, slots: seq<Slot>) returns (ok: bool)
    requires GoodFields(fields) && FitsAll(fields, slots)
    requires out.Room()
    modifies out
    ensures out.Wrote(ok, old(out.bytesWritten), old(out.buffer), EncodeFields(fields, slots, |fields|))
    decreases fields, 4
  {
    hide EncodeField, FitsSlot, GoodType;
    ok := true;
    assert old(out.buffer) + EncodeFields(fields, slots, 0) == old(out.buffer);
    for i := 0 to |fields|
      invariant out.Wrote(true, old(out.bytesWritten), old(out.buffer), EncodeFields(fields, slots, i)) && ok
    {
      ok := WriteField(out, fields[i], slots[i]);
      if !ok {
        FieldsGrow(fields, slots, i + 1, |fields|);
        return;
      }
      Joined(out, old(out.bytesWritten), old(out.buffer), EncodeFields(fields, slots, i), EncodeField(fields[i], slots[i]));
    }
  }

  /** The size that the counting pass reports is the number of bytes that the writing pass emits; the
      writing pass succeeds exactly if there is room for them. */
  method Encode(fields: seq<Field>, slots: seq<Slot>, maxSize: nat) returns (size: nat, bytes: Option<seq<Byte>>)
    requires GoodFields(fields) && FitsAll(fields, slots)
    ensures size == |EncodeMessage(fields, slots)|
    ensures bytes == if size <= maxSize then Some(EncodeMessage(fields, slots)) else None
  {
    hide EncodeFields;
    var counter := new OStream(true, 0);
    var counted := WriteMessage(counter, fields, slots);
    size := counter.bytesWritten;
    var out := new OStream(false, maxSize);
    var none: seq<Byte> := [];
    assert none + EncodeMessage(fields, slots) == EncodeMessage(fields, slots);
    var written := WriteMessage(out, fields, slots);
    bytes := if written then Some(out.buffer) else None;
  }

  // ----- Reading messages -----

  lemma NothingLeft(bitpos: nat, result: nat, used: nat)
    ensures DecodeVarint32Rest([], bitpos, result, used).None?
  {
  }

  /** Takes the bits of one more byte into a 32-bit varint, or finds that they do not fit. */
  method TakeBits(byte: nat, bitpos: nat, result: nat, ghost b: seq<Byte>, ghost used: nat) returns (r: Option<nat>)
    requires b != [] && byte == b[0]
    ensures DecodeVarint32Rest(b, bitpos, result, used) ==
            if r.None? then None
            else if byte >= 128 then DecodeVarint32Rest(b[1..], bitpos + 7, r.value, used + 1)
            else if bitpos == 28 && byte % 128 >= 16 then None
            else Some((r.value, used + 1))
  {
    if bitpos >= 32 {
      var sign := if bitpos < 63 then 0xff else 0x01;
      if byte % 128 != 0 && (result < 0x8000_0000 || byte != sign) {
        return None;
      }
      return Some(result);
    }
    r := Some((result + byte % 128 * Weight(bitpos)) % TWO_32);
  }

  /** A 32-bit varint, byte by byte. */
  method ReadVarint32(b: seq<Byte>) returns (r: Option<(nat, nat)>)
    ensures r == DecodeVarint32(b)
  {
    hide DecodeVarint32Rest;
    if b == [] {
      return None;
    }
    var byte: nat := b[0];
    var i, result, bitpos := 1, byte % 128, 7;
    while byte >= 128
      invariant 1 <= i <= |b| && 0 <= result && 7 <= bitpos
      invariant if byte >= 128 then DecodeVarint32(b) == DecodeVarint32Rest(b[i..], bitpos, result, i)
                else DecodeVarint32(b) == if bitpos == 35 && byte % 128 >= 16 then None else Some((result, i))
      decreases |b| - i, byte
    {
      if i == |b| {
        NothingLeft(bitpos, result, i);
        return None;
      }
      assert b[i..][1..] == b[i + 1..];
      byte := b[i];
      i := i + 1;
      var taken := TakeBits(byte, bitpos, result, b[i - 1..], i - 1);
      if taken.None? {
        return None;
      }
      result, bitpos := taken.value, bitpos + 7;
    }
    if bitpos == 35 && byte % 128 >= 16 {
      return None;
    }
    r := Some((result, i));
  }

  /** The field with a tag, looked for from the current position on and around. */
  method FindField(fields: seq<Field>, pos: nat, tag: nat) returns (r: Option<nat>)
    requires GoodFields(fields) && (fields != [] ==> pos < |fields|)
    ensures r == FindTag(fields, tag)
  {
    if fields == [] {
      return None;
    }
    var p, n := pos, 0;
    while true
      invariant p < |fields| && n < |fields| && p == (if pos + n < |fields| then pos + n else pos + n - |fields|)
      invariant forall i :: 0 <= i < |fields| && (if i >= pos then i - pos < n else i + |fields| - pos < n) ==> fields[i].tag != tag
      decreases |fields| - n
    {
      if fields[p].tag == tag {
        FindByTag(fields, p);
        return Some(p);
      }
      p := if p + 1 < |fields| then p + 1 else 0;
      n := n + 1;
      if p == pos {
        break;
      }
    }
    r := None;
  }

  method ReadValue(k: DataType, current: Value, b: seq<Byte>) returns (r: Option<Taken<Value>>)
    requires GoodType(k)
    ensures r == DecodeValue(k, current, b)
    decreases k, 0
  {
    if k.Submessage? {
      var t := DecodeString(b);
      if t.None? {
        return None;
      }
      var slots := if current.Message? && |current.slots| == |k.fields| then current.slots else DefaultSlots(k.fields);
      var m := ReadMessage(k.fields, t.value.v, slots);
      r := if m.None? then None else Some(Taken(Message(m.value), t.value.rest));
    } else {
      r := DecodeScalar(k, b);
    }
  }

  method ReadPacked(k: DataType, vs: seq<Value>, max: nat, b: seq<Byte>) returns (r: Option<seq<Value>>)
    requires GoodType(k)
    ensures r == DecodePacked(k, vs, max, b)
    decreases k, 1
  {
    hide DecodeValue, DefaultValue, GoodType;
    var items, left := vs, b;
    while left != [] && |items| < max
      invariant DecodePacked(k, vs, max, b) == DecodePacked(k, items, max, left)
      decreases |left|
    {
      var t := ReadValue(k, DefaultValue(k), left);
      if t.None? {
        return None;
      }
      items, left := items + [t.value.v], t.value.rest;
    }
    r := if left != [] then None else Some(items);
  }

  method ReadField(f: Field, s: Slot, wire: nat, b: seq<Byte>) returns (r: Option<Taken<Slot>>)
    requires GoodField(f)
    ensures r == DecodeField(f, s, wire, b)
    decreases f, 2
  {
    hide DecodeValue, DecodePacked, DefaultValue, DecodeString;
    match f.rule
    case Required =>
      var t := ReadValue(f.kind, if s.One? then s.v else DefaultValue(f.kind), b);
      r := if t.None? then None else Some(Taken(One(t.value.v), t.value.rest));
    case Optional =>
      var t := ReadValue(f.kind, if s.Perhaps? && s.o.Some? then s.o.value else DefaultValue(f.kind), b);
      r := if t.None? then None else Some(Taken(Perhaps(Some(t.value.v)), t.value.rest));
    case Repeated(max) =>
      var vs := if s.Many? then s.vs else [];
      if wire == WIRE_STRING && Packable(f.kind) {
        var t := DecodeString(b);
        if t.None? {
          return None;
        }
        var all := ReadPacked(f.kind, vs, max, t.value.v);
        r := if all.None? then None else Some(Taken(Many(all.value), t.value.rest));
      } else if |vs| >= max {
        r := None;
      } else {
        var t := ReadValue(f.kind, DefaultValue(f.kind), b);
        r := if t.None? then None else Some(Taken(Many(vs + [t.value.v]), t.value.rest));
      }
  }

  /** Field after field into the message, marking what has been seen. */
  method ReadMessage(fields: seq<Field>, b: seq<Byte>, slots: seq<Slot>) returns (r: Option<seq<Slot>>)
    requires GoodFields(fields) && |slots| == |fields|
    ensures r == DecodeFields(fields, b, slots, {})
    decreases fields, 4
  {
    hide DecodeField, DecodeVarint32, SkipField, FindTag, Finished;
    var left, message, seen: set<nat>, pos := b, slots, {}, 0;
    while left != []
      invariant |message| == |fields| && (fields != [] ==> pos < |fields|)
      invariant DecodeFields(fields, b, slots, {}) == DecodeFields(fields, left, message, seen)
      decreases |left|
    {
      var key := ReadVarint32(left);
      if key.None? {
        return None;
      }
      var (tag, n) := key.value;
      if tag == 0 {
        break;
      }
      var found := FindField(fields, pos, tag / 8);
      if found.None? {
        var rest := SkipField(tag % 8, left[n..]);
        if rest.None? {
          return None;
        }
        left := rest.value;
      } else {
        var i := found.value;
        assert GoodField(fields[i]);
        var t := ReadField(fields[i], message[i], tag % 8, left[n..]);
        if t.None? {
          return None;
        }
        left, message, seen, pos := t.value.rest, message[i := t.value.v], seen + {i}, i;
      }
    }
    r := Finished(fields, message, seen);
  }

  /** What the writer writes, the reader reads. */
  method ReadBack(fields: seq<Field>, slots: seq<Slot>) returns (r: Option<seq<Slot>>)
    requires GoodFields(fields) && FitsAll(fields, slots) && |EncodeMessage(fields, slots)| < TWO_32
    ensures r == Some(slots)
  {
    var size, bytes := Encode(fields, slots, TWO_32);
    MessageRoundTrip(fields, slots);
    hide *;
    r := ReadMessage(fields, bytes.value, DefaultSlots(fields));
  }
}
