/** Blocks of a table file: entries with shared key prefixes, and an array of restart points. */
module Blocks {
  import opened Entries
  import opened Coding

  datatype Pair = Pair(key: seq<Byte>, value: seq<Byte>)

  // ----- One entry -----

  /** An entry leaves out the part of its key that it shares with the key before. */
  function EntryBytes(shared: nat, e: Pair): (r: seq<Byte>)
    requires shared <= |e.key|
    ensures |r| >= 3
  {
    EntryHeader(shared, e) + e.key[shared..] + e.value
  }

  function EntryHeader(shared: nat, e: Pair): (r: seq<Byte>)
    requires shared <= |e.key|
    ensures |r| >= 3
  {
    EncodeVarint(shared) + EncodeVarint(|e.key| - shared) + EncodeVarint(|e.value|)
  }

  datatype EntryInfo = EntryInfo(shared: nat, nonShared: nat, valueLength: nat, headerLength: nat)

  /** Decodes the entry header at the head of `b`, which reaches to the restart array. */
  function DecodeEntry(b: seq<Byte>): (r: Option<EntryInfo>)
    ensures r.Some? ==> r.value.headerLength + r.value.nonShared + r.value.valueLength <= |b|
  {
    if |b| < 3 then None
    else if b[0] < 128 && b[1] < 128 && b[2] < 128 then Fits(b, EntryInfo(b[0], b[1], b[2], 3))
    else
      match GetVarint32Ptr(b)
      case None => None
      case Some((shared, n0)) =>
        match GetVarint32Ptr(b[n0..])
        case None => None
        case Some((nonShared, n1)) =>
          match GetVarint32Ptr(b[n0 + n1..])
          case None => None
          case Some((valueLength, n2)) => Fits(b, EntryInfo(shared, nonShared, valueLength, n0 + n1 + n2))
  }

  /** Key delta and value must lie before the restart array. */
  function Fits(b: seq<Byte>, i: EntryInfo): Option<EntryInfo>
    requires i.headerLength <= |b|
  {
    if |b| - i.headerLength < i.nonShared + i.valueLength then None else Some(i)
  }

  lemma FirstByte(v: nat)
    ensures EncodeVarint(v)[0] < 128 <==> v < 128
    ensures v < 128 ==> EncodeVarint(v) == [v]
  {
  }

  /** A written entry header is read back, by the fast path or by the slow one. */
  lemma HeaderRoundTrip(shared: nat, e: Pair, rest: seq<Byte>)
    requires shared <= |e.key| < 0x1_0000_0000 && |e.value| < 0x1_0000_0000 && |e.key| - shared + |e.value| < 0x1_0000_0000
    requires |e.key| - shared + |e.value| <= |rest|
    ensures DecodeEntry(EntryHeader(shared, e) + rest) ==
            Some(EntryInfo(shared, |e.key| - shared, |e.value|, |EntryHeader(shared, e)|))
  {
    hide EncodeVarint, GetVarint32Ptr;
    var v0, v1, v2 := EncodeVarint(shared), EncodeVarint(|e.key| - shared), EncodeVarint(|e.value|);
    var b := EntryHeader(shared, e) + rest;
    FirstByte(shared);
    FirstByte(|e.key| - shared);
    FirstByte(|e.value|);
    Slices(v0, v1, v2, rest);
    assert b == v0 + v1 + v2 + rest;
    Varint32RoundTrip(shared, v1 + v2 + rest);
    Varint32RoundTrip(|e.key| - shared, v2 + rest);
    Varint32RoundTrip(|e.value|, rest);
    hide EntryHeader;
  }

  lemma Slices(v0: seq<Byte>, v1: seq<Byte>, v2: seq<Byte>, rest: seq<Byte>)
    requires |v0| > 0 && |v1| > 0 && |v2| > 0
    ensures var b := v0 + v1 + v2 + rest;
            && b == v0 + (v1 + v2 + rest)
            && b[|v0|..] == v1 + (v2 + rest)
            && b[|v0| + |v1|..] == v2 + rest
            && b[0] == v0[0] && (|v0| == 1 ==> b[1] == v1[0]) && (|v0| == 1 && |v1| == 1 ==> b[2] == v2[0])
  {
  }

  // ----- A whole block -----

  /** Where things are: entry `i` takes the bytes from `offs[i]` to `offs[i + 1]` and shares `shared[i]`
      bytes of key; `starts` lists the entries that are restart points. */
  datatype Layout = Layout(es: seq<Pair>, offs: seq<nat>, shared: seq<nat>, starts: seq<nat>)

  ghost predicate GoodShape(l: Layout) {
    && |l.offs| == |l.es| + 1 && |l.shared| == |l.es| && l.offs[0] == 0
    && (forall i, j :: 0 <= i < j < |l.offs| ==> l.offs[i] < l.offs[j])
    && |l.starts| > 0 && l.starts[0] == 0
    && (forall i, j :: 0 <= i < j < |l.starts| ==> l.starts[i] < l.starts[j])
    && (forall r :: 0 < r < |l.starts| ==> l.starts[r] < |l.es|)
  }

  /** An entry shares with the one before only what is equal, and nothing at a restart point. */
  ghost predicate GoodSharing(l: Layout)
    requires GoodShape(l)
  {
    && (forall i :: 0 <= i < |l.es| ==> l.shared[i] <= |l.es[i].key| < 0x1_0000_0000)
    && (forall i :: 0 < i < |l.es| ==>
            l.shared[i] <= |l.es[i - 1].key| && l.es[i].key[..l.shared[i]] == l.es[i - 1].key[..l.shared[i]])
    && (forall r :: 0 <= r < |l.starts| && l.starts[r] < |l.es| ==> l.shared[l.starts[r]] == 0)
  }

  ghost predicate GoodBytes(body: seq<Byte>, l: Layout)
    requires GoodShape(l) && GoodSharing(l)
  {
    && l.offs[|l.es|] == |body| < 0x1_0000_0000
    && forall i :: 0 <= i < |l.es| ==> EntryHere(body, l, i)
  }

  ghost predicate EntryHere(body: seq<Byte>, l: Layout, i: nat)
    requires GoodShape(l) && GoodSharing(l) && i < |l.es|
  {
    l.offs[i + 1] <= |body| && body[l.offs[i]..l.offs[i + 1]] == EntryBytes(l.shared[i], l.es[i])
  }

  ghost predicate WellLaid(body: seq<Byte>, restarts: seq<nat>, l: Layout) {
    && GoodShape(l) && GoodSharing(l) && GoodBytes(body, l)
    && |restarts| == |l.starts|
    && forall r :: 0 <= r < |restarts| ==> restarts[r] == l.offs[l.starts[r]]
  }

  /** What decoding finds at the start of entry `i`. */
  lemma EntryIsThere(body: seq<Byte>, restarts: seq<nat>, l: Layout, i: nat)
    requires WellLaid(body, restarts, l) && i < |l.es|
    ensures l.offs[i] < l.offs[i + 1] <= |body|
    ensures var e, p := l.es[i], l.offs[i] + |EntryHeader(l.shared[i], l.es[i])|;
            && DecodeEntry(body[l.offs[i]..]) == Some(EntryInfo(l.shared[i], |e.key| - l.shared[i], |e.value|, p - l.offs[i]))
            && p + (|e.key| - l.shared[i]) + |e.value| == l.offs[i + 1]
            && body[p..p + (|e.key| - l.shared[i])] == e.key[l.shared[i]..]
            && body[p + (|e.key| - l.shared[i])..l.offs[i + 1]] == e.value
  {
    var from, to, shared, e := l.offs[i], l.offs[i + 1], l.shared[i], l.es[i];
    assert EntryHere(body, l, i) && from < to <= |body| < 0x1_0000_0000;
    assert body[from..to] == EntryBytes(shared, e) && shared <= |e.key| < 0x1_0000_0000;
    hide *;
    EntryFrom(body, from, to, shared, e);
  }

  lemma EntryFrom(body: seq<Byte>, from: nat, to: nat, shared: nat, e: Pair)
    requires from < to <= |body| < 0x1_0000_0000 && shared <= |e.key| < 0x1_0000_0000
    requires body[from..to] == EntryBytes(shared, e)
    ensures var p := from + |EntryHeader(shared, e)|;
            && DecodeEntry(body[from..]) == Some(EntryInfo(shared, |e.key| - shared, |e.value|, p - from))
            && p + (|e.key| - shared) + |e.value| == to
            && body[p..p + (|e.key| - shared)] == e.key[shared..]
            && body[p + (|e.key| - shared)..to] == e.value
  {
    var h, delta := EntryHeader(shared, e), e.key[shared..];
    EntryParts(body, from, to, h, delta, e.value);
    hide EntryHeader, DecodeEntry;
    HeaderRoundTrip(shared, e, delta + e.value + body[to..]);
  }

  lemma EntryParts(body: seq<Byte>, from: nat, to: nat, h: seq<Byte>, delta: seq<Byte>, value: seq<Byte>)
    requires from <= to <= |body| && body[from..to] == h + delta + value
    ensures body[from..] == h + (delta + value + body[to..])
    ensures from + |h| + |delta| + |value| == to
    ensures body[from + |h|..from + |h| + |delta|] == delta
    ensures body[from + |h| + |delta|..to] == value
  {
    var mine := body[from..to];
    assert |mine| == |h| + |delta| + |value|;
    assert body[from..] == mine + body[to..];
    assert body[from + |h|..from + |h| + |delta|] == mine[|h|..|h| + |delta|];
    assert body[from + |h| + |delta|..to] == mine[|h| + |delta|..];
  }

  // ----- The restart array -----

  function Fixed32s(ns: seq<nat>): (r: seq<Byte>)
    requires forall i :: 0 <= i < |ns| ==> ns[i] < 0x1_0000_0000
    ensures |r| == 4 * |ns|
  {
    if ns == [] then [] else Fixed32s(ns[..|ns| - 1]) + EncodeFixed32(ns[|ns| - 1])
  }

  lemma {:induction false} Fixed32At(before: seq<Byte>, ns: seq<nat>, after: seq<Byte>, i: nat)
    requires i < |ns| && forall k :: 0 <= k < |ns| ==> ns[k] < 0x1_0000_0000
    ensures DecodeFixed32((before + Fixed32s(ns) + after)[|before| + 4 * i..]) == ns[i]
  {
    var last := ns[|ns| - 1];
    var init := Fixed32s(ns[..|ns| - 1]);
    if i == |ns| - 1 {
      assert (before + Fixed32s(ns) + after)[|before| + 4 * i..] == EncodeFixed32(last) + after;
      DecodeEncodeFixed32(last, after);
    } else {
      Fixed32At(before, ns[..|ns| - 1], EncodeFixed32(last) + after, i);
      assert before + Fixed32s(ns) + after == before + init + (EncodeFixed32(last) + after);
    }
  }

  function BlockBytes(body: seq<Byte>, restarts: seq<nat>): seq<Byte>
    requires |restarts| < 0x1_0000_0000 && forall i :: 0 <= i < |restarts| ==> restarts[i] < 0x1_0000_0000
  {
    body + Fixed32s(restarts) + EncodeFixed32(|restarts|)
  }

  /** Opening a block: an error, or where the restart array begins and how long it is. */
  function Trailer(data: seq<Byte>): Option<(nat, nat)> {
    if |data| < 4 then None
    else
      var n: nat := DecodeFixed32(data[|data| - 4..]);
      if n > (|data| - 4) / 4 then None else Some((|data| - (1 + n) * 4, n))
  }

  lemma TrailerRoundTrip(body: seq<Byte>, restarts: seq<nat>)
    requires |restarts| < 0x1_0000_0000 && forall i :: 0 <= i < |restarts| ==> restarts[i] < 0x1_0000_0000
    ensures Trailer(BlockBytes(body, restarts)) == Some((|body|, |restarts|))
    ensures BlockBytes(body, restarts)[..|body|] == body
    ensures forall i :: 0 <= i < |restarts| ==> DecodeFixed32(BlockBytes(body, restarts)[|body| + 4 * i..]) == restarts[i]
  {
    var data, none: seq<Byte> := BlockBytes(body, restarts), [];
    assert data[|data| - 4..] == EncodeFixed32(|restarts|) + none;
    DecodeEncodeFixed32(|restarts|, none);
    forall i | 0 <= i < |restarts| ensures DecodeFixed32(data[|body| + 4 * i..]) == restarts[i] {
      Fixed32At(body, restarts, EncodeFixed32(|restarts|), i);
    }
  }

  // ----- Building a block -----

  /** The key of the last entry. */
  function LastKey(es: seq<Pair>): seq<Byte> {
    if es == [] then [] else es[|es| - 1].key
  }

  lemma EntryIsParts(before: seq<Byte>, shared: nat, e: Pair)
    requires shared <= |e.key|
    ensures before + EncodeVarint(shared) + EncodeVarint(|e.key| - shared) + EncodeVarint(|e.value|) + e.key[shared..] + e.value
         == before + EntryBytes(shared, e)
  {
    hide EncodeVarint;
    var s, n, v := EncodeVarint(shared), EncodeVarint(|e.key| - shared), EncodeVarint(|e.value|);
    assert before + s + n + v + e.key[shared..] + e.value == before + (s + n + v + e.key[shared..] + e.value);
  }

  lemma EntryIsShort(shared: nat, e: Pair)
    requires shared <= |e.key| < 0x1_0000_0000 && |e.value| < 0x1_0000_0000
    ensures |EntryBytes(shared, e)| <= 15 + |e.key| + |e.value|
  {
    var none: seq<Byte> := [];
    forall v: nat | v < 0x1_0000_0000 ensures |EncodeVarint(v)| <= 5 {
      Uint32FitsVarint(v);
      VarintRoundTrip(v, MAX_VARINT32_BYTES, none);
    }
  }

  function Added(l: Layout, e: Pair, shared: nat, restart: bool, end: nat): Layout {
    Layout(l.es + [e], l.offs + [end], l.shared + [shared], if restart then l.starts + [|l.es|] else l.starts)
  }

  lemma RestartsKept(restarts: seq<nat>, l: Layout, e: Pair, shared: nat, restart: bool, end: nat)
    requires GoodShape(l) && |restarts| == |l.starts|
    requires forall r :: 0 <= r < |restarts| ==> restarts[r] == l.offs[l.starts[r]]
    ensures var l' := Added(l, e, shared, restart, end);
            var now := if restart then restarts + [l.offs[|l.es|]] else restarts;
            && |now| == |l'.starts|
            && forall r :: 0 <= r < |now| ==> 0 <= l'.starts[r] < |l'.offs| && now[r] == l'.offs[l'.starts[r]]
  {
    assert forall r :: 0 <= r < |l.starts| ==> l.starts[r] <= |l.es|;
  }

  /** An entry that shares no more than it may can be added to a block. */
  lemma AddKeeps(body: seq<Byte>, restarts: seq<nat>, l: Layout, e: Pair, shared: nat, restart: bool)
    requires WellLaid(body, restarts, l) && shared <= |e.key| < 0x1_0000_0000
    requires |body + EntryBytes(shared, e)| < 0x1_0000_0000
    requires l.es == [] ==> !restart
    requires restart || l.es == [] ==> shared == 0
    requires shared <= |LastKey(l.es)| && e.key[..shared] == LastKey(l.es)[..shared]
    ensures var after := body + EntryBytes(shared, e);
            WellLaid(after, if restart then restarts + [|body|] else restarts, Added(l, e, shared, restart, |after|))
  {
    var after := body + EntryBytes(shared, e);
    var l' := Added(l, e, shared, restart, |after|);
    assert l.offs[|l.es|] == |body|;
    RestartsKept(restarts, l, e, shared, restart, |after|);
    ShapeKept(l, e, shared, restart, |after|);
    SharingKept(l, e, shared, restart, |after|);
    BytesKept(body, l, e, shared, restart);
    assert GoodShape(l') && GoodSharing(l') && GoodBytes(after, l');
    hide GoodShape, GoodSharing, GoodBytes, EntryBytes, Added;
  }

  lemma BytesKept(body: seq<Byte>, l: Layout, e: Pair, shared: nat, restart: bool)
    requires GoodShape(l) && GoodSharing(l) && GoodBytes(body, l) && shared <= |e.key|
    requires |body + EntryBytes(shared, e)| < 0x1_0000_0000
    requires var l' := Added(l, e, shared, restart, |body + EntryBytes(shared, e)|); GoodShape(l') && GoodSharing(l')
    ensures GoodBytes(body + EntryBytes(shared, e), Added(l, e, shared, restart, |body + EntryBytes(shared, e)|))
  {
    hide EntryBytes, EntryHere, GoodShape, GoodSharing;
    var after := body + EntryBytes(shared, e);
    var l' := Added(l, e, shared, restart, |after|);
    forall i | 0 <= i < |l'.es| ensures EntryHere(after, l', i) {
      if i < |l.es| {
        OldEntryHere(body, l, e, shared, restart, i);
      } else {
        LastEntryHere(body, l, e, shared, restart);
      }
    }
    EndAdded(l, e, shared, restart, |after|);
  }

  lemma EndAdded(l: Layout, e: Pair, shared: nat, restart: bool, end: nat)
    requires GoodShape(l)
    ensures var l' := Added(l, e, shared, restart, end);
            |l'.offs| == |l'.es| + 1 && l'.offs[|l'.es|] == end && l'.offs[|l.es|] == l.offs[|l.es|]
  {
  }

  lemma OldEntryHere(body: seq<Byte>, l: Layout, e: Pair, shared: nat, restart: bool, i: nat)
    requires GoodShape(l) && GoodSharing(l) && GoodBytes(body, l) && shared <= |e.key| && i < |l.es|
    requires var l' := Added(l, e, shared, restart, |body + EntryBytes(shared, e)|); GoodShape(l') && GoodSharing(l')
    ensures EntryHere(body + EntryBytes(shared, e), Added(l, e, shared, restart, |body + EntryBytes(shared, e)|), i)
  {
    hide EntryBytes, EntryHere, GoodSharing;
    var after := body + EntryBytes(shared, e);
    assert EntryHere(body, l, i);
    EarlierKept(body, after, l, Added(l, e, shared, restart, |after|), i);
  }

  lemma LastEntryHere(body: seq<Byte>, l: Layout, e: Pair, shared: nat, restart: bool)
    requires GoodShape(l) && GoodSharing(l) && GoodBytes(body, l) && shared <= |e.key|
    requires var l' := Added(l, e, shared, restart, |body + EntryBytes(shared, e)|); GoodShape(l') && GoodSharing(l')
    ensures EntryHere(body + EntryBytes(shared, e), Added(l, e, shared, restart, |body + EntryBytes(shared, e)|), |l.es|)
  {
    hide EntryBytes, EntryHere, GoodSharing;
    NewEntryHere(body, Added(l, e, shared, restart, |body + EntryBytes(shared, e)|), |l.es|, shared, e);
  }

  lemma NewEntryHere(body: seq<Byte>, l: Layout, i: nat, shared: nat, e: Pair)
    requires GoodShape(l) && GoodSharing(l) && i + 1 == |l.es| && l.es[i] == e && l.shared[i] == shared && shared <= |e.key|
    requires l.offs[i] == |body| && l.offs[i + 1] == |body + EntryBytes(shared, e)|
    ensures EntryHere(body + EntryBytes(shared, e), l, i)
  {
    hide EntryBytes, GoodShape, GoodSharing;
    var after := body + EntryBytes(shared, e);
    assert after[|body|..|after|] == EntryBytes(shared, e);
  }

  lemma EarlierKept(body: seq<Byte>, after: seq<Byte>, l: Layout, l': Layout, i: nat)
    requires GoodShape(l) && GoodSharing(l) && GoodShape(l') && GoodSharing(l') && i < |l.es| < |l'.es|
    requires l'.es[i] == l.es[i] && l'.shared[i] == l.shared[i] && l'.offs[i] == l.offs[i] && l'.offs[i + 1] == l.offs[i + 1]
    requires EntryHere(body, l, i) && body <= after
    ensures EntryHere(after, l', i)
  {
    hide EntryBytes;
    assert l.offs[i] < l.offs[i + 1];
    assert after[l.offs[i]..l.offs[i + 1]] == body[l.offs[i]..l.offs[i + 1]];
  }

  lemma ShapeKept(l: Layout, e: Pair, shared: nat, restart: bool, end: nat)
    requires GoodShape(l) && end > l.offs[|l.es|] && (l.es == [] ==> !restart)
    ensures GoodShape(Added(l, e, shared, restart, end))
  {
    assert forall i :: 0 <= i < |l.es| ==> l.offs[i] < l.offs[|l.es|];
    assert |l.starts| > 0 && forall r :: 0 < r < |l.starts| ==> l.starts[r] < |l.es|;
  }

  lemma SharingKept(l: Layout, e: Pair, shared: nat, restart: bool, end: nat)
    requires GoodShape(l) && GoodSharing(l) && GoodShape(Added(l, e, shared, restart, end))
    requires shared <= |e.key| < 0x1_0000_0000
    requires restart || l.es == [] ==> shared == 0
    requires shared <= |LastKey(l.es)| && e.key[..shared] == LastKey(l.es)[..shared]
    ensures GoodSharing(Added(l, e, shared, restart, end))
  {
    var l' := Added(l, e, shared, restart, end);
    forall i | 0 < i < |l'.es|
      ensures l'.shared[i] <= |l'.es[i - 1].key| && l'.es[i].key[..l'.shared[i]] == l'.es[i - 1].key[..l'.shared[i]] {
      assert l'.es[i - 1] == l.es[i - 1];
    }
  }

  lemma LastKeyAdded(es: seq<Pair>, e: Pair)
    ensures LastKey(es + [e]) == e.key && es + [e] != []
  {
  }

  /** The keys agree on the first `n` bytes and no further. */
  predicate SharesMost(a: seq<Byte>, b: seq<Byte>, n: nat) {
    && n <= |a| && n <= |b| && a[..n] == b[..n]
    && (n < |a| && n < |b| ==> a[n] != b[n])
  }

  class BlockBuilder {
    const restartInterval: nat
    var buffer: seq<Byte>
    var restarts: seq<nat>
    var counter: nat
    var lastKey: seq<Byte>
    ghost var layout: Layout

    ghost predicate Valid()
      reads this
    {
      && restartInterval >= 1 && counter <= restartInterval
      && WellLaid(buffer, restarts, layout)
      && lastKey == LastKey(layout.es)
      && (layout.es == [] ==> counter == 0)
    }

    constructor (interval: nat)
      requires interval >= 1
      ensures Valid() && layout.es == []
    {
      restartInterval := interval;
      buffer, restarts, counter, lastKey := [], [0], 0, [];
      layout := Layout([], [0], [], [0]);
    }

    /** How much of the last key to share; every so often nothing, and the entry is a restart point. */
    method Share(key: seq<Byte>) returns (shared: nat, restart: bool)
      requires restartInterval >= 1 && counter <= restartInterval
      modifies this`restarts, this`counter
      ensures shared <= |lastKey| && shared <= |key| && lastKey[..shared] == key[..shared]
      ensures counter < restartInterval && (restart ==> shared == 0) && counter == if restart then 0 else old(counter)
      ensures restart <==> old(counter) == restartInterval
      ensures restarts == if restart then old(restarts) + [|buffer|] else old(restarts)
      ensures !restart ==> SharesMost(lastKey, key, shared)
    {
      shared, restart := 0, false;
      if counter < restartInterval {
        while shared < |lastKey| && shared < |key| && lastKey[shared] == key[shared]
          invariant shared <= |lastKey| && shared <= |key| && lastKey[..shared] == key[..shared]
        {
          shared := shared + 1;
        }
      } else {
        restarts := restarts + [|buffer|];
        counter := 0;
        restart := true;
      }
    }

    method Append(shared: nat, e: Pair)
      requires shared <= |e.key| < 0x1_0000_0000 && |e.value| < 0x1_0000_0000
      modifies this`buffer
      ensures buffer == old(buffer) + EntryBytes(shared, e)
    {
      hide EncodeVarint;
      var s := PutVarint32(shared);
      var n := PutVarint32(|e.key| - shared);
      var v := PutVarint32(|e.value|);
      EntryIsParts(buffer, shared, e);
      buffer := buffer + s + n + v + e.key[shared..] + e.value;
    }

    method Add(key: seq<Byte>, value: seq<Byte>)
      requires Valid() && |key| < 0x1_0000_0000 && |value| < 0x1_0000_0000
      requires |buffer| + |key| + |value| + 15 < 0x1_0000_0000
      modifies this
      ensures Valid() && layout.es == old(layout.es) + [Pair(key, value)]
      ensures |layout.shared| == |layout.es| && lastKey == key
      ensures var shared := layout.shared[|old(layout.es)|];
              if old(counter) == restartInterval then shared == 0 && restarts == old(restarts) + [|old(buffer)|] && counter == 1
              else SharesMost(old(lastKey), key, shared) && restarts == old(restarts) && counter == old(counter) + 1
    {
      FirstEntry(layout.es, lastKey);
      hide WellLaid, EntryBytes, LastKey, Added, SharesMost;
      var e := Pair(key, value);
      ghost var body, points, l := buffer, restarts, layout;
      var shared, restart := Share(key);
      AddEntry(body, points, l, e, shared, restart);
      Append(shared, e);
      assert buffer == body + EntryBytes(shared, e);
      hide *;
      Advance(key, shared, Added(l, e, shared, restart, |buffer|));
    }

    /** What is remembered of the entry just appended. */
    method Advance(key: seq<Byte>, shared: nat, ghost after: Layout)
      requires shared <= |lastKey| && shared <= |key| && lastKey[..shared] == key[..shared] && key == LastKey(after.es)
      requires restartInterval >= 1 && counter < restartInterval && after.es != [] && WellLaid(buffer, restarts, after)
      modifies this`lastKey, this`counter, this`layout
      ensures Valid() && layout == after && lastKey == key && counter == old(counter) + 1
    {
      hide WellLaid, LastKey;
      lastKey := lastKey[..shared] + key[shared..];
      counter := counter + 1;
      layout := after;
    }

    lemma FirstEntry(es: seq<Pair>, last: seq<Byte>)
      requires last == LastKey(es)
      ensures es == [] ==> |last| == 0
    {
    }

    lemma AddEntry(body: seq<Byte>, points: seq<nat>, l: Layout, e: Pair, shared: nat, restart: bool)
      requires WellLaid(body, points, l) && |e.key| < 0x1_0000_0000 && |e.value| < 0x1_0000_0000
      requires |body| + |e.key| + |e.value| + 15 < 0x1_0000_0000
      requires shared <= |LastKey(l.es)| && shared <= |e.key| && LastKey(l.es)[..shared] == e.key[..shared]
      requires (l.es == [] ==> !restart) && (restart ==> shared == 0)
      ensures var after := body + EntryBytes(shared, e);
              && WellLaid(after, if restart then points + [|body|] else points, Added(l, e, shared, restart, |after|))
              && Added(l, e, shared, restart, |after|).es == l.es + [e]
              && Added(l, e, shared, restart, |after|).shared == l.shared + [shared] && |l.shared| == |l.es|
              && e.key == LastKey(l.es + [e]) && l.es + [e] != []
    {
      assert |l.shared| == |l.es|;
      FirstEntry(l.es, LastKey(l.es));
      EntryIsShort(shared, e);
      hide WellLaid, EntryBytes;
      AddKeeps(body, points, l, e, shared, restart);
      LastKeyAdded(l.es, e);
    }

    /** The finished block. */
    method Finish() returns (data: seq<Byte>)
      requires Valid() && |restarts| < 0x1_0000_0000
      modifies this`buffer
      ensures forall r :: 0 <= r < |restarts| ==> restarts[r] < 0x1_0000_0000
      ensures data == BlockBytes(old(buffer), restarts) && WellLaid(old(buffer), restarts, layout)
    {
      RestartsFit(buffer, restarts, layout);
      ghost var body := buffer;
      for i := 0 to |restarts|
        invariant restarts == old(restarts) && buffer == body + Fixed32s(restarts[..i])
      {
        assert restarts[..i + 1][..i] == restarts[..i];
        buffer := buffer + EncodeFixed32(restarts[i]);
      }
      assert restarts[..|restarts|] == restarts;
      buffer := buffer + EncodeFixed32(|restarts|);
      data := buffer;
    }
  }

  lemma RestartsFit(body: seq<Byte>, restarts: seq<nat>, l: Layout)
    requires WellLaid(body, restarts, l)
    ensures forall r :: 0 <= r < |restarts| ==> restarts[r] < 0x1_0000_0000
  {
    forall r | 0 <= r < |restarts| ensures restarts[r] <= |body| {
      assert l.starts[r] <= |l.es|;
      assert l.starts[r] < |l.es| ==> l.offs[l.starts[r]] < l.offs[|l.es|];
    }
  }
}
