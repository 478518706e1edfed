/** The cursor over a block: it decodes entries one after the other from a restart point on. */
module BlockIters {
  import opened Entries
  import opened Coding
  import opened Blocks

  type KeyOrder = (seq<Byte>, seq<Byte>) -> bool

  ghost predicate Transitive(lt: KeyOrder) {
    forall a, b, c :: lt(a, b) && lt(b, c) ==> lt(a, c)
  }

  ghost predicate Increasing(lt: KeyOrder, es: seq<Pair>) {
    forall i, j :: 0 <= i < j < |es| ==> lt(es[i].key, es[j].key)
  }

  /** What the cursor is told of a block, and what is known of it. */
  datatype Block = Block(data: seq<Byte>, restarts: nat, numRestarts: nat)

  ghost predicate GoodBlock(b: Block, points: seq<nat>, l: Layout) {
    && b.restarts + 4 * b.numRestarts <= |b.data| && b.numRestarts == |points|
    && WellLaid(b.data[..b.restarts], points, l)
    && forall r :: 0 <= r < b.numRestarts ==> RestartPoint(b, r) == points[r]
  }

  function RestartPoint(b: Block, r: nat): nat {
    if b.restarts + 4 * r + 4 <= |b.data| then DecodeFixed32(b.data[b.restarts + 4 * r..]) else 0
  }

  /** A finished block is a good one. */
  lemma FinishedIsGood(body: seq<Byte>, restarts: seq<nat>, l: Layout)
    requires |restarts| < 0x1_0000_0000 && forall i :: 0 <= i < |restarts| ==> restarts[i] < 0x1_0000_0000
    requires WellLaid(body, restarts, l)
    ensures Trailer(BlockBytes(body, restarts)) == Some((|body|, |restarts|))
    ensures GoodBlock(Block(BlockBytes(body, restarts), |body|, |restarts|), restarts, l)
  {
    TrailerRoundTrip(body, restarts);
    hide WellLaid, DecodeFixed32;
  }

  /** Facts about one restart point. */
  lemma AtRestart(b: Block, points: seq<nat>, l: Layout, r: nat)
    requires GoodBlock(b, points, l) && r < b.numRestarts
    ensures r < |l.starts| && l.starts[r] <= |l.es| < |l.offs| && RestartPoint(b, r) == l.offs[l.starts[r]] <= b.restarts
    ensures l.starts[r] < |l.es| ==> l.shared[l.starts[r]] == 0
    ensures r > 0 ==> l.starts[r - 1] < l.starts[r] < |l.es|
    ensures r == 0 ==> l.starts[r] == 0
  {
    assert l.starts[r] < |l.es| ==> l.offs[l.starts[r]] < l.offs[|l.es|];
  }

  lemma InOrder(b: Block, points: seq<nat>, l: Layout, i: nat, j: nat)
    requires GoodBlock(b, points, l) && i <= |l.es| && j <= |l.es|
    ensures i < j <==> l.offs[i] < l.offs[j]
    ensures l.offs[i] == b.restarts <==> i == |l.es|
  {
    assert i < j ==> l.offs[i] < l.offs[j];
    assert j < i ==> l.offs[j] < l.offs[i];
    assert i < |l.es| ==> l.offs[i] < l.offs[|l.es|];
  }

  /** What decoding finds at entry `i` of a block. */
  lemma EntryInBlock(b: Block, points: seq<nat>, l: Layout, i: nat)
    requires GoodBlock(b, points, l) && i < |l.es|
    ensures l.offs[i] < l.offs[i + 1] <= b.restarts <= |b.data| && l.shared[i] <= |l.es[i].key|
    ensures var e, p := l.es[i], l.offs[i] + |EntryHeader(l.shared[i], l.es[i])|;
            && DecodeEntry(b.data[l.offs[i]..b.restarts]) == Some(EntryInfo(l.shared[i], |e.key| - l.shared[i], |e.value|, p - l.offs[i]))
            && p + (|e.key| - l.shared[i]) + |e.value| == l.offs[i + 1]
            && b.data[p..p + (|e.key| - l.shared[i])] == e.key[l.shared[i]..]
            && b.data[p + (|e.key| - l.shared[i])..l.offs[i + 1]] == e.value
  {
    EntryIsThere(b.data[..b.restarts], points, l, i);
    assert b.restarts <= |b.data|;
    hide EntryHeader, DecodeEntry, WellLaid, GoodBlock;
    var e, p := l.es[i], l.offs[i] + |EntryHeader(l.shared[i], l.es[i])|;
    SameSlice(b.data, b.restarts, l.offs[i], b.restarts);
    SameSlice(b.data, b.restarts, p, p + (|e.key| - l.shared[i]));
    SameSlice(b.data, b.restarts, p + (|e.key| - l.shared[i]), l.offs[i + 1]);
    assert b.data[..b.restarts][l.offs[i]..] == b.data[..b.restarts][l.offs[i]..b.restarts];
  }

  lemma SameSlice(data: seq<Byte>, n: nat, i: nat, j: nat)
    requires i <= j <= n <= |data|
    ensures data[..n][i..j] == data[i..j]
  {
  }

  /** Key bytes that an entry takes over from the one before. */
  lemma SharesWithPrevious(b: Block, points: seq<nat>, l: Layout, i: nat)
    requires GoodBlock(b, points, l) && i + 1 < |l.es|
    ensures l.shared[i + 1] <= |l.es[i].key| && l.shared[i + 1] <= |l.es[i + 1].key|
    ensures l.es[i].key[..l.shared[i + 1]] == l.es[i + 1].key[..l.shared[i + 1]]
  {
    var j := i + 1;
    assert 0 < j < |l.es| && l.es[j - 1] == l.es[i];
    assert l.es[j].key[..l.shared[j]] == l.es[j - 1].key[..l.shared[j]];
  }

  /** Outcome of decoding the entry at offset `from` with `key` at hand. */
  datatype Parsed = Exhausted | Corrupted | Got(key: seq<Byte>, value: seq<Byte>, next: nat)

  function Parse(b: Block, from: nat, key: seq<Byte>): Parsed
    requires b.restarts <= |b.data|
  {
    if from >= b.restarts then Exhausted
    else
      match DecodeEntry(b.data[from..b.restarts])
      case None => Corrupted
      case Some(e) =>
        if |key| < e.shared then Corrupted
        else
          var p := from + e.headerLength;
          Got(key[..e.shared] + b.data[p..p + e.nonShared], b.data[p + e.nonShared..p + e.nonShared + e.valueLength],
              p + e.nonShared + e.valueLength)
  }

  lemma ParseGood(b: Block, points: seq<nat>, l: Layout, j: nat, key: seq<Byte>)
    requires GoodBlock(b, points, l) && j <= |l.es|
    requires j < |l.es| ==> l.shared[j] <= |key| && l.shared[j] <= |l.es[j].key| && key[..l.shared[j]] == l.es[j].key[..l.shared[j]]
    ensures Parse(b, l.offs[j], key) == if j < |l.es| then Got(l.es[j].key, l.es[j].value, l.offs[j + 1]) else Exhausted
  {
    InOrder(b, points, l, j, |l.es|);
    if j < |l.es| {
      EntryInBlock(b, points, l, j);
      hide GoodBlock, DecodeEntry, EntryHeader;
      assert l.es[j].key == l.es[j].key[..l.shared[j]] + l.es[j].key[l.shared[j]..];
    }
  }

  /** A restart point before an entry belongs to that entry or an earlier one. */
  lemma RestartBehind(b: Block, points: seq<nat>, l: Layout, r: nat, j: nat)
    requires GoodBlock(b, points, l) && r < b.numRestarts && j < |l.es| && RestartPoint(b, r) < l.offs[j]
    ensures r < |l.starts| && l.starts[r] <= j
  {
    AtRestart(b, points, l, r);
    InOrder(b, points, l, l.starts[r], j);
    hide GoodBlock;
  }

  class BlockIter {
    const b: Block
    const lt: KeyOrder
    /** Offset of the current entry, or of the restart array. */
    var current: nat
    var restartIndex: nat
    var key: seq<Byte>
    var value: seq<Byte>
    /** Offset just past the current value. */
    var nextOffset: nat
    var corrupt: bool
    ghost const points: seq<nat>
    ghost const l: Layout
    ghost var pos: nat

    /** Before parsing entry `j`: parsing will begin there, with the shared part of its key at hand. */
    ghost predicate Ready(j: nat)
      reads this
    {
      && GoodBlock(b, points, l) && !corrupt
      && j <= |l.es| && nextOffset == l.offs[j]
      && restartIndex < b.numRestarts && l.starts[restartIndex] <= j
      && (j < |l.es| ==> l.shared[j] <= |key| && l.shared[j] <= |l.es[j].key| && key[..l.shared[j]] == l.es[j].key[..l.shared[j]])
    }

    ghost predicate AtEntry(i: nat)
      reads this
    {
      && GoodBlock(b, points, l) && !corrupt
      && i < |l.es| && current == l.offs[i] && nextOffset == l.offs[i + 1]
      && key == l.es[i].key && value == l.es[i].value
      && restartIndex < b.numRestarts && l.starts[restartIndex] <= i
    }

    ghost predicate AtEnd()
      reads this
    {
      GoodBlock(b, points, l) && !corrupt && current == b.restarts
    }

    /** The cursor stands on entry `pos`, or on nothing if that is the number of entries. */
    ghost predicate Ok()
      reads this
    {
      pos <= |l.es| && if pos < |l.es| then AtEntry(pos) else AtEnd()
    }

    predicate Valid()
      reads this
    {
      current < b.restarts
    }

    lemma ValidMeansOnEntry()
      requires Ok()
      ensures Valid() <==> pos < |l.es|
    {
      if pos < |l.es| {
        InOrder(b, points, l, pos, |l.es|);
      }
    }

    constructor (block: Block, order: KeyOrder, ghost points_: seq<nat>, ghost layout: Layout)
      requires GoodBlock(block, points_, layout)
      ensures Ok() && !Valid() && b == block && l == layout && lt == order
    {
      b, lt, points, l := block, order, points_, layout;
      current, restartIndex, key, value, nextOffset, corrupt := block.restarts, block.numRestarts, [], [], 0, false;
      pos := |layout.es|;
    }

    method SeekToRestartPoint(index: nat)
      requires GoodBlock(b, points, l) && !corrupt && index < b.numRestarts
      modifies this`key, this`restartIndex, this`nextOffset
      ensures Ready(l.starts[index]) && restartIndex == index
    {
      AtRestart(b, points, l, index);
      hide GoodBlock;
      key := [];
      restartIndex := index;
      nextOffset := RestartPoint(b, index);
    }

    /** Decodes the entry behind the current one; on any block, good or not. */
    method Decode() returns (more: bool)
      requires b.restarts <= |b.data|
      modifies this`current, this`restartIndex, this`key, this`value, this`nextOffset, this`corrupt
      ensures match Parse(b, old(nextOffset), old(key))
              case Exhausted => !more && current == b.restarts && corrupt == old(corrupt)
              case Corrupted => !more && current == b.restarts && corrupt
              case Got(k, v, next) => more && current == old(nextOffset) && key == k && value == v && nextOffset == next
                                      && corrupt == old(corrupt) && restartIndex == old(restartIndex)
    {
      hide DecodeEntry;
      current := nextOffset;
      if current >= b.restarts {
        current := b.restarts;
        restartIndex := b.numRestarts;
        return false;
      }
      var entry := DecodeEntry(b.data[current..b.restarts]);
      if entry.None? || |key| < entry.value.shared {
        current := b.restarts;
        restartIndex := b.numRestarts;
        corrupt := true;
        key, value := [], [];
        return false;
      }
      var e := entry.value;
      var p := current + e.headerLength;
      key := key[..e.shared] + b.data[p..p + e.nonShared];
      value := b.data[p + e.nonShared..p + e.nonShared + e.valueLength];
      nextOffset := p + e.nonShared + e.valueLength;
      more := true;
    }

    method ParseNextKey(ghost j: nat) returns (more: bool)
      requires Ready(j)
      modifies this`current, this`restartIndex, this`key, this`value, this`nextOffset, this`corrupt
      ensures more <==> j < |l.es|
      ensures more ==> AtEntry(j)
      ensures !more ==> AtEnd()
    {
      ParseGood(b, points, l, j, key);
      hide Parse, WellLaid;
      more := Decode();
      if more {
        AdvanceRestartIndex(j);
      }
    }

    method AdvanceRestartIndex(ghost j: nat)
      requires AtEntry(j)
      modifies this`restartIndex
      ensures AtEntry(j)
    {
      hide GoodBlock, RestartPoint;
      while restartIndex + 1 < b.numRestarts && RestartPoint(b, restartIndex + 1) < current
        invariant AtEntry(j)
        decreases b.numRestarts - restartIndex
      {
        RestartBehind(b, points, l, restartIndex + 1, j);
        restartIndex := restartIndex + 1;
      }
    }

    method SeekToFirst()
      requires Ok() && b.numRestarts > 0
      modifies this
      ensures Ok() && pos == 0
    {
      AtRestart(b, points, l, 0);
      SeekToRestartPoint(0);
      var _ := ParseNextKey(0);
      pos := 0;
    }

    method Next()
      requires Ok() && Valid()
      modifies this
      ensures Ok() && pos == old(pos) + 1
    {
      ValidMeansOnEntry();
      BeReady(pos);
      var _ := ParseNextKey(pos + 1);
      pos := pos + 1;
    }

    /** Standing on an entry is being ready for the next. */
    lemma BeReady(i: nat)
      requires AtEntry(i)
      ensures Ready(i + 1)
    {
      if i + 1 < |l.es| {
        SharesWithPrevious(b, points, l, i);
      }
    }

    /** From just before entry `from`, on to the entry that ends at offset `end`. */
    method ParseUpTo(end: nat, ghost from: nat, ghost to: nat)
      requires Ready(from) && (from < |l.es| ==> from <= to < |l.es| && end == l.offs[to + 1])
      modifies this`current, this`restartIndex, this`key, this`value, this`nextOffset, this`corrupt, this`pos
      ensures Ok() && pos == if from < |l.es| then to else |l.es|
    {
      hide WellLaid, RestartPoint;
      ghost var j := from;
      var more := ParseNextKey(j);
      if more {
        InOrder(b, points, l, j + 1, to + 1);
      }
      while more && nextOffset < end
        invariant if from < |l.es| then from <= j <= to && more && AtEntry(j) else !more && AtEnd()
        invariant from < |l.es| ==> (nextOffset < end <==> j < to)
        decreases |l.es| - j
      {
        BeReady(j);
        j := j + 1;
        more := ParseNextKey(j);
        InOrder(b, points, l, j + 1, to + 1);
      }
      pos := if from < |l.es| then to else |l.es|;
    }

    /** Where the last restart point stands, and where the last entry ends. */
    lemma LastEntry()
      requires Ok() && b.numRestarts > 0
      ensures GoodBlock(b, points, l) && !corrupt
      ensures var from := l.starts[b.numRestarts - 1];
              from < |l.es| ==> from <= |l.es| - 1 && b.restarts == l.offs[|l.es|]
    {
      AtRestart(b, points, l, b.numRestarts - 1);
      InOrder(b, points, l, 0, |l.es|);
    }

    method SeekToLast()
      requires Ok() && b.numRestarts > 0
      modifies this
      ensures Ok() && pos == if l.es == [] then 0 else |l.es| - 1
    {
      LastEntry();
      hide WellLaid, GoodBlock, RestartPoint, AtEnd, AtEntry;
      SeekToRestartPoint(b.numRestarts - 1);
      ParseUpTo(b.restarts, l.starts[b.numRestarts - 1], if l.es == [] then 0 else |l.es| - 1);
    }

    /** Back to a restart point before the current entry, then forward to the entry before it. */
    method Prev()
      requires Ok() && Valid()
      modifies this
      ensures Ok() && pos == if old(pos) == 0 then |l.es| else old(pos) - 1
    {
      hide WellLaid;
      ValidMeansOnEntry();
      ghost var p := pos;
      var original := current;
      AtRestart(b, points, l, restartIndex);
      InOrder(b, points, l, l.starts[restartIndex], p);
      while RestartPoint(b, restartIndex) >= original
        invariant AtEntry(p) && pos == p
        invariant RestartPoint(b, restartIndex) == l.offs[l.starts[restartIndex]]
        invariant RestartPoint(b, restartIndex) >= original <==> l.starts[restartIndex] == p
        decreases restartIndex
      {
        AtRestart(b, points, l, restartIndex);
        if restartIndex == 0 {
          current := b.restarts;
          restartIndex := b.numRestarts;
          pos := |l.es|;
          return;
        }
        AtRestart(b, points, l, restartIndex - 1);
        InOrder(b, points, l, l.starts[restartIndex - 1], p);
        restartIndex := restartIndex - 1;
      }
      SeekToRestartPoint(restartIndex);
      ParseUpTo(original, l.starts[restartIndex], p - 1);
    }

    /** The key at a restart point, read without moving the cursor. */
    method RestartKey(r: nat) returns (k: Option<seq<Byte>>)
      requires GoodBlock(b, points, l) && 0 < r < b.numRestarts
      ensures l.starts[r] < |l.es| && k == Some(l.es[l.starts[r]].key)
    {
      AtRestart(b, points, l, r);
      var none: seq<Byte> := [];
      ParseGood(b, points, l, l.starts[r], none);
      hide GoodBlock, Parse;
      k := match Parse(b, RestartPoint(b, r), none)
           case Got(key, _, _) => Some(key)
           case _ => None;
    }

    /** Binary search for the last restart point with a key before the target. */
    method FindRestart(target: seq<Byte>) returns (left: nat)
      requires GoodBlock(b, points, l) && b.numRestarts > 0 && Transitive(lt) && Increasing(lt, l.es)
      ensures left < b.numRestarts && left < |l.starts|
      ensures forall i :: 0 <= i < l.starts[left] ==> lt(l.es[i].key, target)
    {
      var right := b.numRestarts - 1;
      left := 0;
      AtRestart(b, points, l, 0);
      while left < right
        invariant left <= right < b.numRestarts
        invariant forall i :: 0 <= i < l.starts[left] ==> lt(l.es[i].key, target)
      {
        var mid := (left + right + 1) / 2;
        var midKey := RestartKey(mid);
        if lt(midKey.value, target) {
          EarlierKeys(l.es, l.starts[mid], target);
          left := mid;
        } else {
          right := mid - 1;
        }
      }
    }

    lemma EarlierKeys(es: seq<Pair>, m: nat, target: seq<Byte>)
      requires Transitive(lt) && Increasing(lt, es) && m < |es| && lt(es[m].key, target)
      ensures forall i :: 0 <= i < m ==> lt(es[i].key, target)
    {
      forall i | 0 <= i < m ensures lt(es[i].key, target) {
        assert lt(es[i].key, es[m].key);
      }
    }

    /** Stands on the first entry whose key is not before the target. */
    method Seek(target: seq<Byte>)
      requires Ok() && b.numRestarts > 0 && Transitive(lt) && Increasing(lt, l.es)
      modifies this
      ensures Ok() && forall i :: 0 <= i < pos ==> lt(l.es[i].key, target)
      ensures pos < |l.es| ==> !lt(l.es[pos].key, target)
    {
      hide Transitive, Increasing, WellLaid;
      var left := FindRestart(target);
      AtRestart(b, points, l, left);
      ghost var j: nat := l.starts[left];
      SeekToRestartPoint(left);
      var more := ParseNextKey(j);
      while more && lt(key, target)
        invariant j <= |l.es| && more == (j < |l.es|) && (if more then AtEntry(j) else AtEnd())
        invariant forall i :: 0 <= i < j ==> lt(l.es[i].key, target)
        decreases |l.es| - j
      {
        BeReady(j);
        j := j + 1;
        more := ParseNextKey(j);
      }
      pos := j;
    }
  }
}
