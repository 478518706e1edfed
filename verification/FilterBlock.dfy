/** The filter block of a table: one Bloom filter for each 2 KB of file offset. */
module FilterBlock {
  import opened Entries
  import opened Coding
  import opened Bytewise
  import opened Blocks
  import opened Bloom

  const FILTER_BASE_LG: Byte := 11
  const FILTER_BASE := 2048

  function ToBytes(f: seq<bv8>): (r: seq<Byte>)
    ensures |r| == |f|
  {
    seq(|f|, i requires 0 <= i < |f| => ByteOf(f[i]))
  }

  function FromBytes(f: seq<Byte>): (r: seq<bv8>)
    ensures |r| == |f|
  {
    seq(|f|, i requires 0 <= i < |f| => f[i] as bv8)
  }

  function ByteOf(b: bv8): Byte {
    b as nat
  }

  lemma SameByte(b: bv8)
    ensures ByteOf(b) as bv8 == b
  {
  }

  lemma FromToBytes(f: seq<bv8>)
    ensures FromBytes(ToBytes(f)) == f
  {
    forall i | 0 <= i < |f| ensures FromBytes(ToBytes(f))[i] == f[i] {
      SameByte(f[i]);
    }
  }

  /** What is known of a filter block: the keys of every filter. */
  ghost predicate FilterHolds(hash: Hash, k: nat, group: seq<Bytes>, bytes: seq<Byte>) {
    if group == [] then bytes == [] else IsFilter(hash, group, k, FromBytes(bytes))
  }

  /** Where filter `i` ends. */
  function FilterEnd(result: seq<Byte>, offsets: seq<nat>, i: nat): nat {
    if i + 1 < |offsets| then offsets[i + 1] else |result|
  }

  ghost predicate GoodFilters(hash: Hash, k: nat, result: seq<Byte>, offsets: seq<nat>, groups: seq<seq<Bytes>>) {
    && |offsets| == |groups|
    && forall i :: 0 <= i < |offsets| ==> GoodFilter(hash, k, result, offsets, groups, i)
  }

  ghost predicate GoodFilter(hash: Hash, k: nat, result: seq<Byte>, offsets: seq<nat>, groups: seq<seq<Bytes>>, i: nat)
    requires i < |offsets| == |groups|
  {
    && offsets[i] <= FilterEnd(result, offsets, i) <= |result|
    && FilterHolds(hash, k, groups[i], result[offsets[i]..FilterEnd(result, offsets, i)])
  }

  lemma GoodFiltersGrow(hash: Hash, k: nat, result: seq<Byte>, offsets: seq<nat>, groups: seq<seq<Bytes>>, bytes: seq<Byte>, group: seq<Bytes>)
    requires GoodFilters(hash, k, result, offsets, groups) && FilterHolds(hash, k, group, bytes)
    ensures GoodFilters(hash, k, result + bytes, offsets + [|result|], groups + [group])
  {
    hide FilterHolds;
    var result', offsets', groups' := result + bytes, offsets + [|result|], groups + [group];
    forall i | 0 <= i < |offsets'| ensures GoodFilter(hash, k, result', offsets', groups', i) {
      if i < |offsets| {
        assert GoodFilter(hash, k, result, offsets, groups, i);
        assert FilterEnd(result', offsets', i) == FilterEnd(result, offsets, i);
        assert result'[offsets[i]..FilterEnd(result, offsets, i)] == result[offsets[i]..FilterEnd(result, offsets, i)];
      } else {
        assert result'[|result|..|result'|] == bytes;
      }
    }
  }

  /** `more` empty groups. */
  function Empties(more: nat): (r: seq<seq<Bytes>>)
    ensures |r| == more && forall i :: 0 <= i < more ==> r[i] == []
  {
    seq(more, _ => [])
  }

  class FilterBlockBuilder {
    const hash: Hash
    const bitsPerKey: nat
    /** Keys for the filter not yet made. */
    var keys: seq<Bytes>
    var result: seq<Byte>
    var offsets: seq<nat>
    ghost var groups: seq<seq<Bytes>>

    ghost predicate Valid()
      reads this
    {
      GoodFilters(hash, ProbeCount(bitsPerKey), result, offsets, groups)
    }

    /** Keys of the filters made and of the one to come. */
    ghost function Groups(): seq<seq<Bytes>>
      reads this
    {
      groups + [keys]
    }

    constructor (hash_: Hash, bitsPerKey_: nat)
      ensures Valid() && Groups() == [[]] && hash == hash_ && bitsPerKey == bitsPerKey_
    {
      hash, bitsPerKey := hash_, bitsPerKey_;
      keys, result, offsets, groups := [], [], [], [];
    }

    method AddKey(key: Bytes)
      requires Valid()
      modifies this
      ensures Valid() && groups == old(groups) && keys == old(keys) + [key]
    {
      keys := keys + [key];
    }

    method GenerateFilter()
      requires Valid()
      modifies this
      ensures Valid() && groups == old(groups) + [old(keys)] && keys == []
    {
      hide IsFilter;
      var none: seq<Byte> := [];
      if keys == [] {
        GoodFiltersGrow(hash, ProbeCount(bitsPerKey), result, offsets, groups, none, keys);
        offsets := offsets + [|result|];
        assert result + none == result;
      } else {
        var f := CreateFilter(hash, keys, bitsPerKey);
        FromToBytes(f);
        GoodFiltersGrow(hash, ProbeCount(bitsPerKey), result, offsets, groups, ToBytes(f), keys);
        offsets := offsets + [|result|];
        result := result + ToBytes(f);
      }
      groups := groups + [keys];
      keys := [];
    }

    /** A block begins at this offset: filters are made up to its 2 KB. */
    method StartBlock(blockOffset: nat)
      requires Valid() && |groups| <= blockOffset / FILTER_BASE
      modifies this
      ensures Valid() && |groups| == blockOffset / FILTER_BASE
      ensures Groups() == old(Groups()) + Empties(blockOffset / FILTER_BASE - |old(groups)|)
    {
      var filterIndex := blockOffset / FILTER_BASE;
      while filterIndex > |offsets|
        invariant Valid() && |offsets| <= filterIndex && |old(groups)| <= |groups|
        invariant Groups() == old(Groups()) + Empties(|groups| - |old(groups)|)
      {
        ghost var before := Groups();
        GenerateFilter();
        assert Groups() == before + [[]];
      }
    }

    /** The finished filter block. */
    method Finish() returns (contents: seq<Byte>)
      requires Valid()
      modifies this
      ensures Valid() && groups == (if old(keys) == [] then old(groups) else old(groups) + [old(keys)])
      ensures |result| < 0x1_0000_0000 ==> IsFilterBlock(contents, result, offsets)
    {
      if keys != [] {
        GenerateFilter();
      }
      contents := [];
      if |result| < 0x1_0000_0000 {
        OffsetsFit(hash, ProbeCount(bitsPerKey), result, offsets, groups);
        contents := result + Fixed32s(offsets) + EncodeFixed32(|result|) + [FILTER_BASE_LG];
      }
    }
  }

  lemma OffsetsFit(hash: Hash, k: nat, result: seq<Byte>, offsets: seq<nat>, groups: seq<seq<Bytes>>)
    requires GoodFilters(hash, k, result, offsets, groups) && |result| < 0x1_0000_0000
    ensures forall i :: 0 <= i < |offsets| ==> offsets[i] < 0x1_0000_0000
  {
    forall i | 0 <= i < |offsets| ensures offsets[i] <= |result| {
      assert GoodFilter(hash, k, result, offsets, groups, i);
    }
  }

  /** Filters, their offsets, the offset of the offsets, and the logarithm of 2 KB. */
  ghost predicate IsFilterBlock(contents: seq<Byte>, result: seq<Byte>, offsets: seq<nat>) {
    && |result| < 0x1_0000_0000 && (forall i :: 0 <= i < |offsets| ==> offsets[i] < 0x1_0000_0000)
    && contents == result + Fixed32s(offsets) + EncodeFixed32(|result|) + [FILTER_BASE_LG]
  }

  function Power2(n: nat): (r: nat)
    ensures r >= 1
  {
    if n == 0 then 1 else 2 * Power2(n - 1)
  }

  lemma PowerOfBase()
    ensures Power2(FILTER_BASE_LG) == FILTER_BASE
  {
    assert Power2(4) == 16;
    assert Power2(8) == 256;
  }

  /** What a reader finds at the end of a filter block and in its array of offsets. */
  lemma ReadBack(contents: seq<Byte>, result: seq<Byte>, offsets: seq<nat>)
    requires IsFilterBlock(contents, result, offsets)
    ensures var n := |contents|;
            && n == |result| + 4 * |offsets| + 5
            && contents[n - 1] == FILTER_BASE_LG
            && DecodeFixed32(contents[n - 5..]) == |result|
            && (forall i :: 0 <= i <= |offsets| ==>
                  DecodeFixed32(contents[|result| + 4 * i..]) == if i < |offsets| then offsets[i] else |result|)
            && contents[..|result|] == result
  {
    var n, tail := |contents|, EncodeFixed32(|result|) + [FILTER_BASE_LG];
    assert contents[n - 5..] == EncodeFixed32(|result|) + [FILTER_BASE_LG];
    DecodeEncodeFixed32(|result|, [FILTER_BASE_LG]);
    assert contents == result + Fixed32s(offsets) + tail;
    forall i | 0 <= i < |offsets| ensures DecodeFixed32(contents[|result| + 4 * i..]) == offsets[i] {
      Fixed32At(result, offsets, tail, i);
    }
  }

  /** Which bytes are the filter for a block, as far as the filter block can be read. */
  datatype Where = Unreadable | NoKeys | At(start: nat, limit: nat)

  function Locate(contents: seq<Byte>, blockOffset: nat): (w: Where)
    ensures w.At? ==> w.start <= w.limit <= |contents|
  {
    var n := |contents|;
    if n < 5 then Unreadable
    else
      var lastWord: nat := DecodeFixed32(contents[n - 5..]);
      if lastWord > n - 5 then Unreadable
      else
        var index := blockOffset / Power2(contents[n - 1]);
        if index >= (n - 5 - lastWord) / 4 then Unreadable
        else
          var start: nat := DecodeFixed32(contents[lastWord + 4 * index..]);
          var limit: nat := DecodeFixed32(contents[lastWord + 4 * index + 4..]);
          if start <= limit <= lastWord then At(start, limit)
          else if start == limit then NoKeys
          else Unreadable
  }

  /** What the filter block says of a key; whatever cannot be read counts as a match. */
  ghost predicate Answer(hash: Hash, contents: seq<Byte>, blockOffset: nat, key: Bytes) {
    match Locate(contents, blockOffset)
    case Unreadable => true
    case NoKeys => false
    case At(start, limit) => Matches(hash, key, FromBytes(contents[start..limit]))
  }

  /** The key belongs to the block: it is in the group of the block's 2 KB. */
  ghost predicate KeyBelongs(groups: seq<seq<Bytes>>, blockOffset: nat, key: Bytes) {
    blockOffset / FILTER_BASE < |groups| ==> key in groups[blockOffset / FILTER_BASE]
  }

  /** In a written filter block the filter of a block is where it was put. */
  lemma LocateFinds(contents: seq<Byte>, blockOffset: nat, hash: Hash, k: nat, result: seq<Byte>, offsets: seq<nat>, groups: seq<seq<Bytes>>)
    requires IsFilterBlock(contents, result, offsets) && GoodFilters(hash, k, result, offsets, groups)
    ensures var i := blockOffset / FILTER_BASE;
            Locate(contents, blockOffset) ==
            if i < |groups| then At(offsets[i], FilterEnd(result, offsets, i)) else Unreadable
    ensures contents[..|result|] == result
  {
    hide IsFilterBlock, Power2, DecodeFixed32;
    ReadBack(contents, result, offsets);
    PowerOfBase();
    var i := blockOffset / FILTER_BASE;
    if i < |groups| {
      assert GoodFilter(hash, k, result, offsets, groups, i);
    }
  }

  /** Looks the key up in the filter of the block's 2 KB; whatever cannot be read counts as a match. */
  method KeyMayMatch(hash: Hash, contents: seq<Byte>, blockOffset: nat, key: Bytes) returns (r: bool)
    ensures r <==> Answer(hash, contents, blockOffset, key)
    ensures |contents| < 5 ==> r
    ensures |contents| >= 5 ==>
              var lastWord: nat := DecodeFixed32(contents[|contents| - 5..]);
              lastWord > |contents| - 5 || blockOffset / Power2(contents[|contents| - 1]) >= (|contents| - 5 - lastWord) / 4 ==> r
  {
    hide Matches;
    match Locate(contents, blockOffset)
    case Unreadable => r := true;
    case NoKeys => r := false;
    case At(start, limit) => r := Bloom.KeyMayMatch(hash, key, FromBytes(contents[start..limit]));
  }

  /** No false negatives: a key of the block is never reported absent. */
  lemma KeyOfBlockMatches(hash: Hash, contents: seq<Byte>, blockOffset: nat, key: Bytes,
                          k: nat, result: seq<Byte>, offsets: seq<nat>, groups: seq<seq<Bytes>>)
    requires IsFilterBlock(contents, result, offsets) && GoodFilters(hash, k, result, offsets, groups)
    requires KeyBelongs(groups, blockOffset, key)
    ensures Answer(hash, contents, blockOffset, key)
  {
    LocateFinds(contents, blockOffset, hash, k, result, offsets, groups);
    var i := blockOffset / FILTER_BASE;
    if i < |groups| {
      assert GoodFilter(hash, k, result, offsets, groups, i);
      hide IsFilterBlock, Locate, Matches, IsFilter;
      var limit := FilterEnd(result, offsets, i);
      assert contents[offsets[i]..limit] == contents[..|result|][offsets[i]..limit];
      KeyOfFilterMatches(hash, groups[i], k, FromBytes(result[offsets[i]..limit]), key);
    }
  }
}
