/** The cache's hash table: buckets of chained handles that grow with their number. */
module HandleTables {
  import opened Entries

  type Key = string
  type HandleId = nat

  /** A handle in its bucket's chain. */
  datatype Slot = Slot(key: Key, hash: nat, handle: HandleId)

  predicate PowerOfTwo(n: nat)
    decreases n
  {
    n == 1 || (n > 1 && n % 2 == 0 && PowerOfTwo(n / 2))
  }

  function BucketOf(hash: nat, n: nat): (b: nat)
    requires n > 0
    ensures b < n
  {
    hash % n
  }

  /** The chain of bucket `b` of `n` holds exactly the contents whose hash falls there, each once. */
  ghost predicate ChainHolds(chain: seq<Slot>, b: nat, n: nat, contents: map<(Key, nat), HandleId>)
    requires n > 0
  {
    && (forall x :: x in chain ==> BucketOf(x.hash, n) == b && (x.key, x.hash) in contents && contents[(x.key, x.hash)] == x.handle)
    && (forall k :: k in contents && BucketOf(k.1, n) == b ==> Slot(k.0, k.1, contents[k]) in chain)
    && forall i, j :: 0 <= i < j < |chain| ==> chain[i] != chain[j]
  }

  ghost predicate Holds(buckets: seq<seq<Slot>>, contents: map<(Key, nat), HandleId>) {
    |buckets| > 0 && forall b :: 0 <= b < |buckets| ==> ChainHolds(buckets[b], b, |buckets|, contents)
  }

  class HandleTable {
    var buckets: seq<seq<Slot>>
    var elems: nat
    ghost var contents: map<(Key, nat), HandleId>

    ghost predicate Valid()
      reads this
    {
      Holds(buckets, contents) && elems == |contents| <= |buckets| && 4 <= |buckets| && PowerOfTwo(|buckets|)
    }

    constructor ()
      ensures Valid() && contents == map[]
    {
      buckets, elems, contents := [[], [], [], []], 0, map[];
    }

    /** Bucket and place in its chain of the slot for a key, or the place behind the chain. */
    method FindPointer(key: Key, hash: nat) returns (b: nat, j: nat)
      requires Holds(buckets, contents)
      ensures b == BucketOf(hash, |buckets|) && j <= |buckets[b]|
      ensures j < |buckets[b]| ==> buckets[b][j].key == key && buckets[b][j].hash == hash
      ensures j < |buckets[b]| <==> (key, hash) in contents
      ensures j < |buckets[b]| ==> buckets[b][j].handle == contents[(key, hash)]
    {
      b, j := BucketOf(hash, |buckets|), 0;
      var chain := buckets[b];
      while j < |chain| && (chain[j].hash != hash || chain[j].key != key)
        invariant 0 <= j <= |chain|
        invariant forall i :: 0 <= i < j ==> chain[i].hash != hash || chain[i].key != key
      {
        j := j + 1;
      }
      assert j < |chain| ==> chain[j] in buckets[b];
    }

    method Lookup(key: Key, hash: nat) returns (r: Option<HandleId>)
      requires Valid()
      ensures r == if (key, hash) in contents then Some(contents[(key, hash)]) else None
    {
      var b, j := FindPointer(key, hash);
      r := if j < |buckets[b]| then Some(buckets[b][j].handle) else None;
    }

    /** Puts a handle in the place of the old one of the same key, if there is one. */
    method Insert(key: Key, hash: nat, handle: HandleId) returns (old_: Option<HandleId>)
      requires Valid()
      modifies this
      ensures Valid() && contents == old(contents)[(key, hash) := handle]
      ensures old_ == if (key, hash) in old(contents) then Some(old(contents)[(key, hash)]) else None
    {
      var b, j := FindPointer(key, hash);
      var chain, slot := buckets[b], Slot(key, hash, handle);
      ghost var k := (key, hash);
      if j < |chain| {
        old_ := Some(chain[j].handle);
        ReplacingHolds(buckets, contents, b, j, slot);
        buckets := buckets[b := chain[j := slot]];
        contents := contents[k := handle];
      } else {
        old_ := None;
        AddingHolds(buckets, contents, b, slot, chain + [slot]);
        buckets := buckets[b := chain + [slot]];
        contents := contents[k := handle];
        elems := elems + 1;
        if elems > |buckets| {
          Resize();
        }
      }
    }

    method Remove(key: Key, hash: nat) returns (r: Option<HandleId>)
      requires Valid()
      modifies this
      ensures Valid() && contents == old(contents) - {(key, hash)}
      ensures r == if (key, hash) in old(contents) then Some(old(contents)[(key, hash)]) else None
    {
      var b, j := FindPointer(key, hash);
      var chain := buckets[b];
      if j < |chain| {
        r := Some(chain[j].handle);
        RemovingHolds(buckets, contents, b, j);
        buckets := buckets[b := chain[..j] + chain[j + 1..]];
        contents := contents - {(key, hash)};
        elems := elems - 1;
      } else {
        r := None;
        assert contents - {(key, hash)} == contents;
      }
    }

    /** Rehashes every slot into a table with at least as many buckets as elements. */
    method Resize()
      requires Holds(buckets, contents) && elems == |contents|
      modifies this`buckets
      ensures Valid()
    {
      var newLength := 4;
      while newLength < elems
        invariant 4 <= newLength && PowerOfTwo(newLength)
        decreases elems - newLength
      {
        newLength := newLength * 2;
      }
      var list, newList := buckets, seq(newLength, _ => []);
      ghost var moved: map<(Key, nat), HandleId> := map[];
      for i := 0 to |list|
        invariant |newList| == newLength && Holds(newList, moved)
        invariant MovedTo(list, contents, moved, i, 0)
      {
        newList, moved := MoveBucket(list, contents, i, newList, moved);
      }
      AllMoved(list, contents, moved);
      buckets := newList;
    }
  }

  /** Moves the handles of one bucket, each to the head of its new chain. */
  method MoveBucket(list: seq<seq<Slot>>, ghost contents: map<(Key, nat), HandleId>, i: nat,
                    newList: seq<seq<Slot>>, ghost moved: map<(Key, nat), HandleId>)
    returns (newList': seq<seq<Slot>>, ghost moved': map<(Key, nat), HandleId>)
    requires Holds(list, contents) && i < |list| && Holds(newList, moved) && MovedTo(list, contents, moved, i, 0)
    ensures |newList'| == |newList| && Holds(newList', moved') && MovedTo(list, contents, moved', i + 1, 0)
  {
    assert |newList| > 0;
    hide MovedTo, Holds, ChainHolds;
    newList', moved' := newList, moved;
    var chain := list[i];
    for j := 0 to |chain|
      invariant |newList'| == |newList| && Holds(newList', moved')
      invariant MovedTo(list, contents, moved', i, j)
    {
      var h := chain[j];
      var b := BucketOf(h.hash, |newList|);
      MovingOne(list, contents, moved', i, j);
      AddingHolds(newList', moved', b, h, [h] + newList'[b]);
      moved' := moved'[(h.key, h.hash) := h.handle];
      newList' := newList'[b := [h] + newList'[b]];
    }
    NextBucket(list, contents, moved', i);
  }

  /** A change of contents under one key concerns only the bucket of that key. */
  lemma OthersHold(buckets: seq<seq<Slot>>, contents: map<(Key, nat), HandleId>, contents': map<(Key, nat), HandleId>,
                   b: nat, chain: seq<Slot>, k: (Key, nat))
    requires Holds(buckets, contents) && b == BucketOf(k.1, |buckets|)
    requires ChainHolds(chain, b, |buckets|, contents')
    requires forall o :: o != k ==> (o in contents <==> o in contents') && (o in contents ==> contents[o] == contents'[o])
    ensures Holds(buckets[b := chain], contents')
  {
    hide BucketOf;
    var after := buckets[b := chain];
    forall c | 0 <= c < |after| ensures ChainHolds(after[c], c, |after|, contents') {
      assert ChainHolds(buckets[c], c, |buckets|, contents);
    }
  }

  lemma ReplacingHolds(buckets: seq<seq<Slot>>, contents: map<(Key, nat), HandleId>, b: nat, j: nat, slot: Slot)
    requires Holds(buckets, contents) && b == BucketOf(slot.hash, |buckets|) && j < |buckets[b]|
    requires buckets[b][j].key == slot.key && buckets[b][j].hash == slot.hash
    ensures Holds(buckets[b := buckets[b][j := slot]], contents[(slot.key, slot.hash) := slot.handle])
    ensures |contents[(slot.key, slot.hash) := slot.handle]| == |contents|
  {
    hide BucketOf;
    var contents' := contents[(slot.key, slot.hash) := slot.handle];
    assert ChainHolds(buckets[b], b, |buckets|, contents);
    assert buckets[b][j] in buckets[b];
    assert contents'.Keys == contents.Keys;
    ChainReplace(buckets[b], b, |buckets|, contents, j, slot);
    OthersHold(buckets, contents, contents', b, buckets[b][j := slot], (slot.key, slot.hash));
  }

  lemma ChainReplace(chain: seq<Slot>, b: nat, n: nat, contents: map<(Key, nat), HandleId>, j: nat, slot: Slot)
    requires n > 0 && ChainHolds(chain, b, n, contents) && j < |chain|
    requires chain[j].key == slot.key && chain[j].hash == slot.hash
    ensures ChainHolds(chain[j := slot], b, n, contents[(slot.key, slot.hash) := slot.handle])
  {
    hide BucketOf;
    var after, contents' := chain[j := slot], contents[(slot.key, slot.hash) := slot.handle];
    assert chain[j] in chain && after[j] == slot;
    forall i | 0 <= i < |chain| && i != j ensures chain[i] in chain && (chain[i].key, chain[i].hash) != (slot.key, slot.hash) {
      assert chain[i] != chain[j];
    }
    forall k | k in contents' && BucketOf(k.1, n) == b ensures Slot(k.0, k.1, contents'[k]) in after {
      if k != (slot.key, slot.hash) {
        var i :| 0 <= i < |chain| && chain[i] == Slot(k.0, k.1, contents[k]);
        assert after[i] == chain[i];
      }
    }
  }

  lemma AddingHolds(buckets: seq<seq<Slot>>, contents: map<(Key, nat), HandleId>, b: nat, slot: Slot, chain: seq<Slot>)
    requires Holds(buckets, contents) && b == BucketOf(slot.hash, |buckets|) && (slot.key, slot.hash) !in contents
    requires chain == buckets[b] + [slot] || chain == [slot] + buckets[b]
    ensures Holds(buckets[b := chain], contents[(slot.key, slot.hash) := slot.handle])
    ensures |contents[(slot.key, slot.hash) := slot.handle]| == |contents| + 1
  {
    hide BucketOf;
    var contents' := contents[(slot.key, slot.hash) := slot.handle];
    assert contents'.Keys == contents.Keys + {(slot.key, slot.hash)};
    assert ChainHolds(buckets[b], b, |buckets|, contents);
    ChainAdd(buckets[b], b, |buckets|, contents, slot, chain);
    OthersHold(buckets, contents, contents', b, chain, (slot.key, slot.hash));
  }

  lemma ChainAdd(chain: seq<Slot>, b: nat, n: nat, contents: map<(Key, nat), HandleId>, slot: Slot, after: seq<Slot>)
    requires n > 0 && ChainHolds(chain, b, n, contents) && b == BucketOf(slot.hash, n) && (slot.key, slot.hash) !in contents
    requires after == chain + [slot] || after == [slot] + chain
    ensures ChainHolds(after, b, n, contents[(slot.key, slot.hash) := slot.handle])
  {
    hide BucketOf;
    assert slot !in chain;
  }

  lemma RemovingHolds(buckets: seq<seq<Slot>>, contents: map<(Key, nat), HandleId>, b: nat, j: nat)
    requires Holds(buckets, contents) && b < |buckets| && j < |buckets[b]|
    ensures var x := buckets[b][j];
            && (x.key, x.hash) in contents
            && Holds(buckets[b := buckets[b][..j] + buckets[b][j + 1..]], contents - {(x.key, x.hash)})
            && |contents - {(x.key, x.hash)}| == |contents| - 1
  {
    hide BucketOf;
    var x := buckets[b][j];
    assert ChainHolds(buckets[b], b, |buckets|, contents);
    assert x in buckets[b];
    var contents' := contents - {(x.key, x.hash)};
    assert contents'.Keys == contents.Keys - {(x.key, x.hash)};
    ChainRemove(buckets[b], b, |buckets|, contents, j);
    OthersHold(buckets, contents, contents', b, buckets[b][..j] + buckets[b][j + 1..], (x.key, x.hash));
  }

  lemma ChainRemove(chain: seq<Slot>, b: nat, n: nat, contents: map<(Key, nat), HandleId>, j: nat)
    requires n > 0 && ChainHolds(chain, b, n, contents) && j < |chain|
    ensures ChainHolds(chain[..j] + chain[j + 1..], b, n, contents - {(chain[j].key, chain[j].hash)})
  {
    hide BucketOf;
    assert chain[j] in chain;
    Removed(chain, j);
  }

  /** Unlinking one element of a list without repeats takes out just that element. */
  lemma Removed<T>(s: seq<T>, j: nat)
    requires j < |s| && forall a, b :: 0 <= a < b < |s| ==> s[a] != s[b]
    ensures var rest := s[..j] + s[j + 1..];
            && (forall y :: y in rest <==> y in s && y != s[j])
            && forall a, b :: 0 <= a < b < |rest| ==> rest[a] != rest[b]
  {
    var rest := s[..j] + s[j + 1..];
    assert forall i :: 0 <= i < |rest| ==> rest[i] == if i < j then s[i] else s[i + 1];
    forall y | y in s && y != s[j] ensures y in rest {
      var i :| 0 <= i < |s| && s[i] == y;
      assert rest[if i < j then i else i - 1] == y;
    }
  }

  /** The slots before place `j` of bucket `i` have been moved. */
  ghost predicate MovedTo(buckets: seq<seq<Slot>>, contents: map<(Key, nat), HandleId>, moved: map<(Key, nat), HandleId>, i: nat, j: nat) {
    && (forall k :: k in moved ==> k in contents && moved[k] == contents[k])
    && forall k :: k in contents ==> (k in moved <==> IsBefore(buckets, Slot(k.0, k.1, contents[k]), i, j))
  }

  ghost predicate IsBefore(buckets: seq<seq<Slot>>, x: Slot, i: nat, j: nat) {
    || (exists b :: 0 <= b < i && b < |buckets| && x in buckets[b])
    || (i < |buckets| && j <= |buckets[i]| && x in buckets[i][..j])
  }

  lemma MovingOne(buckets: seq<seq<Slot>>, contents: map<(Key, nat), HandleId>, moved: map<(Key, nat), HandleId>, i: nat, j: nat)
    requires Holds(buckets, contents) && MovedTo(buckets, contents, moved, i, j) && i < |buckets| && j < |buckets[i]|
    ensures var h := buckets[i][j];
            && (h.key, h.hash) !in moved
            && (h.key, h.hash) in contents && contents[(h.key, h.hash)] == h.handle
            && MovedTo(buckets, contents, moved[(h.key, h.hash) := h.handle], i, j + 1)
  {
    hide BucketOf;
    var h := buckets[i][j];
    assert ChainHolds(buckets[i], i, |buckets|, contents);
    assert h in buckets[i] && buckets[i][..j + 1] == buckets[i][..j] + [h];
    forall b | 0 <= b < i ensures h !in buckets[b] {
      assert ChainHolds(buckets[b], b, |buckets|, contents);
    }
  }

  lemma NextBucket(buckets: seq<seq<Slot>>, contents: map<(Key, nat), HandleId>, moved: map<(Key, nat), HandleId>, i: nat)
    requires i < |buckets| && MovedTo(buckets, contents, moved, i, |buckets[i]|)
    ensures MovedTo(buckets, contents, moved, i + 1, 0)
  {
    assert buckets[i][..|buckets[i]|] == buckets[i];
    forall x ensures IsBefore(buckets, x, i, |buckets[i]|) <==> IsBefore(buckets, x, i + 1, 0) {
      if IsBefore(buckets, x, i, |buckets[i]|) && x in buckets[i] {
        assert 0 <= i < i + 1;
      }
    }
  }

  lemma AllMoved(buckets: seq<seq<Slot>>, contents: map<(Key, nat), HandleId>, moved: map<(Key, nat), HandleId>)
    requires Holds(buckets, contents) && MovedTo(buckets, contents, moved, |buckets|, 0)
    ensures moved == contents
  {
    forall k | k in contents ensures k in moved {
      assert ChainHolds(buckets[BucketOf(k.1, |buckets|)], BucketOf(k.1, |buckets|), |buckets|, contents);
    }
  }
}
