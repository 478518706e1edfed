/** Decoding into a message that has values already merges the two: single values are replaced, nested
    messages are merged field by field, and arrays are joined as far as there is room. */
module NanopbMerge {
  import opened Entries
  import opened Coding
  import opened Nanopb
  import opened NanopbReaders

  /** The merge of two values of a type; nothing if an array inside them overflows. */
  function MergeValue(k: DataType, current: Value, v: Value): Option<Value>
    requires FitsValue(k, current) && FitsValue(k, v) && GoodType(k)
    decreases k, 0
  {
    if k.Submessage? then
      match MergeSlots(k.fields, current.slots, v.slots, |k.fields|)
      case None => None
      case Some(slots) => Some(Message(slots))
    else
      Some(v)
  }

  function MergeSlot(f: Field, current: Slot, s: Slot): Option<Slot>
    requires FitsSlot(f, current) && FitsSlot(f, s) && GoodField(f)
    decreases f, 1
  {
    match f.rule
    case Required =>
      (match MergeValue(f.kind, current.v, s.v)
       case None => None
       case Some(v) => Some(One(v)))
    case Optional =>
      if s.o.None? then Some(current)
      else
        (DefaultFits(f.kind);
         match MergeValue(f.kind, if current.o.Some? then current.o.value else DefaultValue(f.kind), s.o.value)
         case None => None
         case Some(v) => Some(Perhaps(Some(v))))
    case Repeated(max) =>
      if |current.vs| + |s.vs| > max then None else Some(Many(current.vs + s.vs))
  }

  /** The first `n` slots are merged. */
  function MergeSlots(fields: seq<Field>, current: seq<Slot>, slots: seq<Slot>, n: nat): (r: Option<seq<Slot>>)
    requires GoodFields(fields) && FitsAll(fields, current) && FitsAll(fields, slots) && n <= |fields|
    ensures r.Some? ==> |r.value| == |fields| && r.value[n..] == current[n..]
    decreases fields, 2, n
  {
    if n == 0 then Some(current)
    else
      match MergeSlots(fields, current, slots, n - 1)
      case None => None
      case Some(before) =>
        match MergeSlot(fields[n - 1], current[n - 1], slots[n - 1])
        case None => None
        case Some(s) => Some(before[n - 1 := s])
  }

  // ----- Arrays -----

  lemma ItemsSplit(k: DataType, vs: seq<Value>, n: nat, tail: seq<Byte>)
    requires 0 < n <= |vs| && GoodType(k) && forall i :: 0 <= i < |vs| ==> FitsValue(k, vs[i])
    ensures EncodeItems(k, vs, n) + tail == EncodeItems(k, vs, n - 1) + (EncodeValue(k, vs[n - 1]) + tail)
    ensures |EncodeItems(k, vs, n)| == |EncodeItems(k, vs, n - 1)| + |EncodeValue(k, vs[n - 1])|
  {
    assert EncodeItems(k, vs, n) == EncodeItems(k, vs, n - 1) + EncodeValue(k, vs[n - 1]);
    Assoc(EncodeItems(k, vs, n - 1), EncodeValue(k, vs[n - 1]), tail);
  }

  /** One more item of a packed array, if there is room. */
  lemma PackedStep(k: DataType, vs: seq<Value>, max: nat, v: Value, tail: seq<Byte>)
    requires GoodType(k) && FitsValue(k, v) && |EncodeValue(k, v)| < TWO_32
    ensures DecodePacked(k, vs, max, EncodeValue(k, v) + tail) ==
            if |vs| >= max then None else DecodePacked(k, vs + [v], max, tail)
  {
    ValueRoundTrip(k, v, tail);
    EncodedNotEmpty(k, v);
    hide EncodeValue, DecodeValue, FitsValue, GoodType, DefaultValue;
  }

  lemma {:induction false} PackedMerge(k: DataType, before: seq<Value>, vs: seq<Value>, n: nat, max: nat, tail: seq<Byte>)
    requires GoodType(k) && n <= |vs| && |before| <= max && forall i :: 0 <= i < |vs| ==> FitsValue(k, vs[i])
    requires |EncodeItems(k, vs, n)| < TWO_32
    ensures DecodePacked(k, before, max, EncodeItems(k, vs, n) + tail) ==
            if |before| + n > max then None else DecodePacked(k, before + vs[..n], max, tail)
    decreases n
  {
    assert n > 0 ==> FitsValue(k, vs[n - 1]);
    hide *;
    if n == 0 {
      NoItems(k, before, vs, tail);
    } else {
      var v, middle := vs[n - 1], before + vs[..n - 1];
      ItemsSplit(k, vs, n, tail);
      PackedMerge(k, before, vs, n - 1, max, EncodeValue(k, v) + tail);
      PackedStep(k, middle, max, v, tail);
      OneMoreItem(before, vs, n);
    }
  }

  lemma OneMoreItem(before: seq<Value>, vs: seq<Value>, n: nat)
    requires 0 < n <= |vs|
    ensures |before + vs[..n - 1]| == |before| + n - 1
    ensures before + vs[..n - 1] + [vs[n - 1]] == before + vs[..n]
  {
  }

  lemma NoItems(k: DataType, before: seq<Value>, vs: seq<Value>, tail: seq<Byte>)
    requires GoodType(k) && forall i :: 0 <= i < |vs| ==> FitsValue(k, vs[i])
    ensures EncodeItems(k, vs, 0) + tail == tail && before + vs[..0] == before
  {
  }

  /** One more item of an array whose items each have their tag. */
  lemma TaggedStep(fields: seq<Field>, i: nat, before: seq<Value>, v: Value, rest: seq<Byte>, slots: seq<Slot>, seen: set<nat>)
    requires GoodFields(fields) && i < |fields| == |slots| && fields[i].rule.Repeated?
    requires slots[i] == Many(before)
    requires GoodField(fields[i]) && FitsValue(fields[i].kind, v) && |EncodeValue(fields[i].kind, v)| < TWO_32
    ensures var f := fields[i];
            DecodeFields(fields, EncodeTag(f.tag, WireType(f.kind)) + (EncodeValue(f.kind, v) + rest), slots, seen) ==
            if |before| >= f.rule.max then None else DecodeFields(fields, rest, slots[i := Many(before + [v])], seen + {i})
  {
    if |before| < fields[i].rule.max {
      ItemStep(fields, i, before, v, rest, slots, seen);
      hide *;
    } else {
      NoRoom(fields, i, before, v, rest, slots, seen);
      hide *;
    }
  }

  lemma NoRoom(fields: seq<Field>, i: nat, before: seq<Value>, v: Value, rest: seq<Byte>, slots: seq<Slot>, seen: set<nat>)
    requires GoodFields(fields) && i < |fields| == |slots| && fields[i].rule.Repeated?
    requires slots[i] == Many(before) && fields[i].rule.max <= |before|
    requires GoodField(fields[i]) && FitsValue(fields[i].kind, v)
    ensures var f := fields[i];
            DecodeFields(fields, EncodeTag(f.tag, WireType(f.kind)) + (EncodeValue(f.kind, v) + rest), slots, seen) == None
  {
    var f := fields[i];
    assert WireType(f.kind) < 8 && !(WireType(f.kind) == WIRE_STRING && Packable(f.kind));
    TagStep(fields, i, WireType(f.kind), EncodeValue(f.kind, v) + rest, slots, seen);
    hide EncodeValue, DecodeValue, DecodeFields, FitsValue, GoodType, DefaultValue, EncodeTag, GoodFields, WireType;
  }

  lemma {:induction false} TaggedMerge(fields: seq<Field>, i: nat, before: seq<Value>, vs: seq<Value>, n: nat, rest: seq<Byte>,
                                       slots: seq<Slot>, seen: set<nat>)
    requires GoodFields(fields) && i < |fields| == |slots| && n <= |vs| && GoodField(fields[i])
    requires fields[i].rule.Repeated? && slots[i] == Many(before) && |before| <= fields[i].rule.max
    requires (forall j :: 0 <= j < |vs| ==> FitsValue(fields[i].kind, vs[j])) && |EncodeTagged(fields[i], vs, n)| < TWO_32
    ensures DecodeFields(fields, EncodeTagged(fields[i], vs, n) + rest, slots, seen) ==
            if |before| + n > fields[i].rule.max then None
            else DecodeFields(fields, rest, slots[i := Many(before + vs[..n])], if n == 0 then seen else seen + {i})
    decreases n
  {
    var f := fields[i];
    if n == 0 {
      assert EncodeTagged(f, vs, n) + rest == rest && before + vs[..0] == before && slots[i := Many(before)] == slots;
    } else {
      assert GoodType(f.kind);
      var middle := before + vs[..n - 1];
      hide *;
      TaggedSplit(f, vs, n, rest);
      TaggedMerge(fields, i, before, vs, n - 1, EncodeTag(f.tag, WireType(f.kind)) + (EncodeValue(f.kind, vs[n - 1]) + rest), slots, seen);
      if |before| + n - 1 <= f.rule.max {
        var seen' := if n == 1 then seen else seen + {i};
        TaggedStep(fields, i, middle, vs[n - 1], rest, slots[i := Many(middle)], seen');
        assert middle + [vs[n - 1]] == before + vs[..n];
        UpdatedTwice(slots, i, Many(middle), Many(before + vs[..n]), vs, n);
        assert seen' + {i} == seen + {i};
      }
    }
  }

  // ----- Fields -----

  /** The outcome of reading one field. */
  function AfterField(fields: seq<Field>, rest: seq<Byte>, slots: seq<Slot>, i: nat, s: Option<Slot>, seen: set<nat>): Option<seq<Slot>>
    requires i < |fields| == |slots|
  {
    match s
    case None => None
    case Some(t) => DecodeFields(fields, rest, slots[i := t], seen)
  }

  lemma ArrayMerge(fields: seq<Field>, i: nat, s: Slot, rest: seq<Byte>, slots: seq<Slot>, seen: set<nat>)
    requires GoodFields(fields) && i < |fields| == |slots| && GoodField(fields[i]) && fields[i].rule.Repeated?
    requires FitsSlot(fields[i], s) && FitsSlot(fields[i], slots[i]) && |EncodeField(fields[i], s)| < TWO_32
    ensures DecodeFields(fields, EncodeField(fields[i], s) + rest, slots, seen) ==
            AfterField(fields, rest, slots, i, MergeSlot(fields[i], slots[i], s), if Present(s) then seen + {i} else seen)
  {
    var f, before := fields[i], slots[i].vs;
    if !Packable(f.kind) {
      hide EncodeTagged, DecodeFields, GoodFields, FitsValue, GoodType;
      TaggedMerge(fields, i, before, s.vs, |s.vs|, rest, slots, seen);
      assert s.vs[..|s.vs|] == s.vs;
      if s.vs == [] {
        assert EncodeTagged(f, s.vs, 0) + rest == EncodeField(f, s) + rest;
      }
    } else if s.vs == [] {
      assert EncodeField(f, s) + rest == rest && before + s.vs == before && slots[i := Many(before)] == slots;
    } else {
      var items := EncodeItems(f.kind, s.vs, |s.vs|);
      var none: seq<Byte> := [];
      assert EncodeField(f, s) + rest == EncodeTag(f.tag, WIRE_STRING) + (EncodeString(items) + rest);
      TagStep(fields, i, WIRE_STRING, EncodeString(items) + rest, slots, seen);
      hide GoodFields, FitsValue, EncodeTag;
      StringRoundTrip(items, rest);
      PackedMerge(f.kind, before, s.vs, |s.vs|, f.rule.max, none);
      assert items + none == items && s.vs[..|s.vs|] == s.vs;
    }
  }

  lemma {:induction false} ValueMerge(k: DataType, current: Value, v: Value, rest: seq<Byte>)
    requires GoodType(k) && FitsValue(k, current) && FitsValue(k, v) && |EncodeValue(k, v)| < TWO_32
    ensures DecodeValue(k, current, EncodeValue(k, v) + rest) ==
            match MergeValue(k, current, v)
            case None => None
            case Some(m) => Some(Taken(m, rest))
    decreases k, 0
  {
    if k.Submessage? {
      var body := EncodeFields(k.fields, v.slots, |k.fields|);
      MessageMerge(k.fields, current.slots, v.slots, {});
      StringRoundTrip(body, rest);
    } else {
      ScalarRoundTrip(k, v, rest);
    }
  }

  lemma {:induction false} SingleMerge(fields: seq<Field>, i: nat, s: Slot, rest: seq<Byte>, slots: seq<Slot>, seen: set<nat>)
    requires GoodFields(fields) && i < |fields| == |slots| && GoodField(fields[i]) && !fields[i].rule.Repeated? && Present(s)
    requires FitsSlot(fields[i], s) && FitsSlot(fields[i], slots[i]) && |EncodeField(fields[i], s)| < TWO_32
    ensures DecodeFields(fields, EncodeField(fields[i], s) + rest, slots, seen) ==
            AfterField(fields, rest, slots, i, MergeSlot(fields[i], slots[i], s), seen + {i})
    decreases fields[i], 1
  {
    var f, current := fields[i], slots[i];
    var v := if f.rule.Required? then s.v else s.o.value;
    assert EncodeField(f, s) + rest == EncodeTag(f.tag, WireType(f.kind)) + (EncodeValue(f.kind, v) + rest);
    TagStep(fields, i, WireType(f.kind), EncodeValue(f.kind, v) + rest, slots, seen);
    DefaultFits(f.kind);
    hide DecodeFields, GoodFields, FitsValue, GoodType, EncodeValue, EncodeTag, DefaultValue;
    ValueMerge(f.kind, if f.rule.Required? then current.v else if current.o.Some? then current.o.value else DefaultValue(f.kind), v, rest);
  }

  lemma {:induction false} FieldMerge(fields: seq<Field>, i: nat, s: Slot, rest: seq<Byte>, slots: seq<Slot>, seen: set<nat>)
    requires GoodFields(fields) && i < |fields| == |slots| && GoodField(fields[i])
    requires FitsSlot(fields[i], s) && FitsSlot(fields[i], slots[i]) && |EncodeField(fields[i], s)| < TWO_32
    ensures DecodeFields(fields, EncodeField(fields[i], s) + rest, slots, seen) ==
            AfterField(fields, rest, slots, i, MergeSlot(fields[i], slots[i], s), if Present(s) then seen + {i} else seen)
    decreases fields[i], 2
  {
    var f := fields[i];
    if f.rule.Repeated? {
      ArrayMerge(fields, i, s, rest, slots, seen);
    } else if Present(s) {
      SingleMerge(fields, i, s, rest, slots, seen);
    } else {
      assert EncodeField(f, s) + rest == rest && slots[i := slots[i]] == slots;
    }
  }

  // ----- Messages -----

  lemma PresentStep(slots: seq<Slot>, n: nat, seen: set<nat>)
    requires 0 < n <= |slots|
    ensures (if Present(slots[n - 1]) then seen + PresentFields(slots, n - 1) + {n - 1} else seen + PresentFields(slots, n - 1))
            == seen + PresentFields(slots, n)
  {
    hide Present;
  }

  lemma MergeStep(fields: seq<Field>, current: seq<Slot>, slots: seq<Slot>, n: nat)
    requires GoodFields(fields) && FitsAll(fields, current) && FitsAll(fields, slots) && 0 < n <= |fields|
    ensures FitsSlot(fields[n - 1], current[n - 1]) && FitsSlot(fields[n - 1], slots[n - 1]) && GoodField(fields[n - 1])
    ensures MergeSlots(fields, current, slots, n - 1).Some? ==>
              && |MergeSlots(fields, current, slots, n - 1).value| == |fields|
              && MergeSlots(fields, current, slots, n - 1).value[n - 1] == current[n - 1]
    ensures MergeSlots(fields, current, slots, n) ==
            match MergeSlots(fields, current, slots, n - 1)
            case None => None
            case Some(before) =>
              match MergeSlot(fields[n - 1], current[n - 1], slots[n - 1])
              case None => None
              case Some(s) => if |before| == |fields| then Some(before[n - 1 := s]) else None
  {
    var before := MergeSlots(fields, current, slots, n - 1);
    if before.Some? {
      assert before.value[n - 1] == before.value[n - 1..][0] == current[n - 1..][0];
    }
    hide MergeSlot;
  }

  lemma {:induction false} FieldsMerge(fields: seq<Field>, current: seq<Slot>, slots: seq<Slot>, n: nat, rest: seq<Byte>, seen: set<nat>)
    requires GoodFields(fields) && FitsAll(fields, current) && FitsAll(fields, slots) && n <= |fields| == |slots|
    requires |EncodeFields(fields, slots, n)| < TWO_32
    ensures DecodeFields(fields, EncodeFields(fields, slots, n) + rest, current, seen) ==
            match MergeSlots(fields, current, slots, n)
            case None => None
            case Some(m) => DecodeFields(fields, rest, m, seen + PresentFields(slots, n))
    decreases fields, 3, n
  {
    assert |current| == |fields|;
    if n == 0 {
      hide DecodeFields;
      NothingEncoded(fields, slots, rest);
      assert seen + PresentFields(slots, 0) == seen;
    } else {
      var i := n - 1;
      MergeStep(fields, current, slots, n);
      hide *;
      EncodeFieldsSplit(fields, slots, n, rest);
      FieldsMerge(fields, current, slots, i, EncodeField(fields[i], slots[i]) + rest, seen);
      if MergeSlots(fields, current, slots, i).Some? {
        var before := MergeSlots(fields, current, slots, i).value;
        FieldMerge(fields, i, slots[i], rest, before, seen + PresentFields(slots, i));
        PresentStep(slots, n, seen);
        AfterFieldIs(fields, rest, before, i, MergeSlot(fields[i], current[i], slots[i]), seen + PresentFields(slots, n));
      }
    }
  }

  lemma AfterFieldIs(fields: seq<Field>, rest: seq<Byte>, slots: seq<Slot>, i: nat, s: Option<Slot>, seen: set<nat>)
    requires i < |fields| == |slots|
    ensures AfterField(fields, rest, slots, i, s, seen) ==
            match s
            case None => None
            case Some(t) => DecodeFields(fields, rest, slots[i := t], seen)
  {
    hide DecodeFields;
  }

  /** Decoding the bytes of a message into another message merges them: it fails if and only if an array
      overflows. */
  lemma {:induction false} MessageMerge(fields: seq<Field>, current: seq<Slot>, slots: seq<Slot>, seen: set<nat>)
    requires GoodFields(fields) && FitsAll(fields, current) && FitsAll(fields, slots) && |EncodeMessage(fields, slots)| < TWO_32
    ensures |current| == |fields| && DecodeFields(fields, EncodeMessage(fields, slots), current, seen) == MergeSlots(fields, current, slots, |fields|)
    decreases fields, 4
  {
    var none: seq<Byte> := [];
    FieldsMerge(fields, current, slots, |fields|, none, seen);
    assert EncodeMessage(fields, slots) + none == EncodeMessage(fields, slots);
    assert RequiredFields(fields) <= seen + PresentFields(slots, |fields|) by {
      forall i | i in RequiredFields(fields) ensures Present(slots[i]) {
        assert FitsSlot(fields[i], slots[i]);
      }
    }
    hide MergeSlots;
  }

  /** Two messages written one behind the other are read as their merge. */
  lemma ConcatIsMerge(fields: seq<Field>, a: seq<Slot>, b: seq<Slot>)
    requires GoodFields(fields) && FitsAll(fields, a) && FitsAll(fields, b)
    requires |EncodeMessage(fields, a)| < TWO_32 && |EncodeMessage(fields, b)| < TWO_32
    ensures DecodeMessage(fields, EncodeMessage(fields, a) + EncodeMessage(fields, b)) == MergeSlots(fields, a, b, |fields|)
  {
    FieldsRoundTrip(fields, a, |fields|, EncodeMessage(fields, b));
    assert Partly(fields, a, |fields|) == a;
    MessageMerge(fields, a, b, PresentFields(a, |fields|));
    hide MergeSlots;
  }
}
