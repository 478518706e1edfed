/** Table files: written in key order, with a shortened key and perhaps a filter for each block, and
    looked up through them. */
module Tables {
  import opened Entries
  import opened Coding
  import opened Bytewise
  import B = Bloom
  import F = FilterBlock

  datatype Row = Row(k: TableKey, value: Bytes)

  /** An index entry: a key that closes a block, and the offset of the block in the file. */
  datatype IndexRow = IndexRow(sep: TableKey, offset: nat)

  /** What a reader opens: the index, the blocks by their offsets, and the filter block if there is one. */
  datatype Table = Table(index: seq<IndexRow>, file: map<nat, seq<Row>>, filter: Option<seq<Byte>>)

  const BLOCK_TRAILER_SIZE := 5

  ghost predicate Increasing(rows: seq<Row>) {
    forall i, j :: 0 <= i < j < |rows| ==> Before(rows[i].k, rows[j].k)
  }

  /** A key that closes a block is before everything behind the block, by user key if it was shortened. */
  predicate Parts(last: TableKey, sep: TableKey, x: Row) {
    Before(sep, x.k) && (sep != last ==> Less(sep.user, x.k.user))
  }

  function LastOf(block: seq<Row>): TableKey
    requires block != []
  {
    block[|block| - 1].k
  }

  ghost predicate GoodBlocks(blocks: seq<seq<Row>>) {
    forall i :: 0 <= i < |blocks| ==> blocks[i] != [] && Increasing(blocks[i])
  }

  /** Every index entry closes its block and stands before the blocks behind it. */
  ghost predicate GoodIndex(index: seq<IndexRow>, blocks: seq<seq<Row>>)
    requires GoodBlocks(blocks)
  {
    && |index| <= |blocks|
    && (forall i :: 0 <= i < |index| ==> Closes(LastOf(blocks[i]), index[i].sep))
    && forall i, j, x :: 0 <= i < |index| && i < j < |blocks| && x in blocks[j] ==> Parts(LastOf(blocks[i]), index[i].sep, x)
  }

  /** Blocks are where the index says. */
  ghost predicate GoodFile(index: seq<IndexRow>, blocks: seq<seq<Row>>, file: map<nat, seq<Row>>, offs: seq<nat>, offset: nat) {
    && |offs| == |blocks| && |index| <= |offs|
    && (forall i :: 0 <= i < |index| ==> index[i].offset == offs[i])
    && (forall i :: 0 <= i < |offs| ==> offs[i] in file && file[offs[i]] == blocks[i] && offs[i] < offset)
  }

  /** The filter of a block's 2 KB has the user keys of all its rows. */
  ghost predicate InFilters(groups: seq<seq<Bytes>>, offset: nat, block: seq<Row>) {
    block != [] ==> offset / F.FILTER_BASE < |groups| && forall x :: x in block ==> x.k.user in groups[offset / F.FILTER_BASE]
  }

  ghost predicate AllInFilters(groups: seq<seq<Bytes>>, offs: seq<nat>, blocks: seq<seq<Row>>)
    requires |offs| == |blocks|
  {
    forall i :: 0 <= i < |blocks| ==> InFilters(groups, offs[i], blocks[i])
  }

  ghost predicate InBlocks(blocks: seq<seq<Row>>, x: Row) {
    exists i :: 0 <= i < |blocks| && x in blocks[i]
  }

  // ----- Looking a key up -----

  /** The first row that is not before the key. */
  ghost predicate IsFirstFrom(blocks: seq<seq<Row>>, k: TableKey, x: Row) {
    && InBlocks(blocks, x) && !Before(x.k, k)
    && forall y :: InBlocks(blocks, y) && !Before(y.k, k) ==> y.k == x.k || Before(x.k, y.k)
  }

  lemma BlockUpTo(index: seq<IndexRow>, blocks: seq<seq<Row>>, i: nat, x: Row)
    requires GoodBlocks(blocks) && GoodIndex(index, blocks) && i < |index| && x in blocks[i]
    ensures !Before(index[i].sep, x.k)
  {
    var n := |blocks[i]| - 1;
    var j :| 0 <= j < |blocks[i]| && blocks[i][j] == x;
    var last, sep := LastOf(blocks[i]), index[i].sep;
    assert Increasing(blocks[i]);
    assert j < n ==> Before(x.k, last);
    BeforeTotal(x.k, last);
    BeforeTotal(sep, x.k);
    if sep != last && Before(sep, x.k) {
      LessTransitiveOrEqual(last.user, sep.user, x.k, last);
    }
  }

  /** A user key that is greater than a block's last one is greater than all in it. */
  lemma LessTransitiveOrEqual(lastUser: Bytes, sepUser: Bytes, x: TableKey, last: TableKey)
    requires last.user == lastUser && Less(lastUser, sepUser) && (x == last || Before(x, last))
    ensures Less(x.user, sepUser) && !Less(sepUser, x.user) && sepUser != x.user
  {
    if x.user != lastUser {
      LessTransitive(x.user, lastUser, sepUser);
    }
    LessIrreflexive(sepUser);
    LessIrreflexive(x.user);
    if Less(sepUser, x.user) {
      LessTransitive(x.user, sepUser, x.user);
    }
  }

  /** Blocks whose closing key is before `k` hold nothing from `k` on. */
  lemma EarlierBlocks(index: seq<IndexRow>, blocks: seq<seq<Row>>, i: nat, x: Row, k: TableKey)
    requires GoodBlocks(blocks) && GoodIndex(index, blocks) && i < |index| && x in blocks[i] && Before(index[i].sep, k)
    ensures Before(x.k, k)
  {
    BlockUpTo(index, blocks, i, x);
    BeforeTotal(index[i].sep, x.k);
    if x.k != index[i].sep {
      BeforeTransitive(x.k, index[i].sep, k);
    }
  }

  /** Later blocks hold nothing up to the closing key of an earlier one. */
  lemma LaterBlocks(index: seq<IndexRow>, blocks: seq<seq<Row>>, i: nat, j: nat, x: Row, k: TableKey)
    requires GoodBlocks(blocks) && GoodIndex(index, blocks) && i < |index| && i < j < |blocks| && x in blocks[j]
    requires !Before(index[i].sep, k)
    ensures Before(k, x.k)
    ensures index[i].sep != LastOf(blocks[i]) ==> k.user != x.k.user
  {
    var sep := index[i].sep;
    assert Parts(LastOf(blocks[i]), sep, x);
    BeforeTotal(sep, k);
    if k != sep {
      BeforeTransitive(k, sep, x.k);
    }
    if sep != LastOf(blocks[i]) && k.user == x.k.user {
      LessIrreflexive(sep.user);
      LessIrreflexive(x.k.user);
      LessTransitiveBack(k, sep, x);
    }
  }

  lemma LessTransitiveBack(k: TableKey, sep: TableKey, x: Row)
    requires (k == sep || Before(k, sep)) && Less(sep.user, x.k.user)
    ensures Less(k.user, x.k.user) && k.user != x.k.user
  {
    if k.user != sep.user {
      LessTransitive(k.user, sep.user, x.k.user);
    }
    LessIrreflexive(k.user);
  }

  lemma SepsIncrease(index: seq<IndexRow>, blocks: seq<seq<Row>>, i: nat, j: nat)
    requires GoodBlocks(blocks) && GoodIndex(index, blocks) && i < j < |index|
    ensures Before(index[i].sep, index[j].sep)
  {
    var last := blocks[j][|blocks[j]| - 1];
    assert last in blocks[j] && Parts(LastOf(blocks[i]), index[i].sep, last);
    if index[j].sep != last.k {
      assert Before(last.k, index[j].sep);
      BeforeTransitive(index[i].sep, last.k, index[j].sep);
    }
  }

  /** A table as it was written. */
  ghost predicate GoodTable(t: Table, blocks: seq<seq<Row>>, offs: seq<nat>, end: nat) {
    && GoodBlocks(blocks) && GoodIndex(t.index, blocks) && |t.index| == |blocks|
    && GoodFile(t.index, blocks, t.file, offs, end)
  }

  /** Its filter block, if it has one, was made from the keys of its blocks. */
  ghost predicate GoodFilterBlock(t: Table, blocks: seq<seq<Row>>, offs: seq<nat>, hash: B.Hash, k: nat,
                                  result: seq<Byte>, filterOffsets: seq<nat>, groups: seq<seq<Bytes>>)
    requires |offs| == |blocks|
  {
    t.filter.Some? ==> F.IsFilterBlock(t.filter.value, result, filterOffsets)
                       && F.GoodFilters(hash, k, result, filterOffsets, groups)
                       && AllInFilters(groups, offs, blocks)
  }

  /** The index cursor's seek. */
  method SeekIndex(index: seq<IndexRow>, k: TableKey, ghost blocks: seq<seq<Row>>) returns (i: nat)
    requires GoodBlocks(blocks) && GoodIndex(index, blocks)
    ensures i <= |index| && (forall j :: 0 <= j < i ==> Before(index[j].sep, k)) && (i < |index| ==> !Before(index[i].sep, k))
  {
    hide GoodIndex, GoodBlocks;
    var lo, hi := 0, |index|;
    while lo < hi
      invariant 0 <= lo <= hi <= |index|
      invariant forall j :: 0 <= j < lo ==> Before(index[j].sep, k)
      invariant hi < |index| ==> !Before(index[hi].sep, k)
    {
      var mid := (lo + hi) / 2;
      if Before(index[mid].sep, k) {
        forall j | 0 <= j < mid ensures Before(index[j].sep, k) {
          SepsIncrease(index, blocks, j, mid);
          BeforeTransitive(index[j].sep, index[mid].sep, k);
        }
        lo := mid + 1;
      } else {
        hi := mid;
      }
    }
    i := lo;
  }

  /** The block cursor's seek. */
  method SeekBlock(block: seq<Row>, k: TableKey) returns (i: nat)
    requires Increasing(block)
    ensures i <= |block| && (forall j :: 0 <= j < i ==> Before(block[j].k, k)) && (i < |block| ==> !Before(block[i].k, k))
  {
    var lo, hi := 0, |block|;
    while lo < hi
      invariant 0 <= lo <= hi <= |block|
      invariant forall j :: 0 <= j < lo ==> Before(block[j].k, k)
      invariant hi < |block| ==> !Before(block[hi].k, k)
    {
      var mid := (lo + hi) / 2;
      if Before(block[mid].k, k) {
        forall j | 0 <= j < mid ensures Before(block[j].k, k) {
          BeforeTransitive(block[j].k, block[mid].k, k);
        }
        lo := mid + 1;
      } else {
        hi := mid;
      }
    }
    i := lo;
  }

  /** What the search of the one block means for the whole table. */
  lemma OneBlockIsEnough(index: seq<IndexRow>, blocks: seq<seq<Row>>, k: TableKey, b: nat, i: nat)
    requires GoodBlocks(blocks) && GoodIndex(index, blocks) && |index| == |blocks| && b < |index| && i <= |blocks[b]|
    requires (forall j :: 0 <= j < b ==> Before(index[j].sep, k)) && !Before(index[b].sep, k)
    requires (forall j :: 0 <= j < i ==> Before(blocks[b][j].k, k)) && (i < |blocks[b]| ==> !Before(blocks[b][i].k, k))
    ensures i < |blocks[b]| ==> IsFirstFrom(blocks, k, blocks[b][i])
    ensures forall x :: InBlocks(blocks, x) && !Before(x.k, k) && x.k.user == k.user ==> i < |blocks[b]|
  {
    forall y | InBlocks(blocks, y) && !Before(y.k, k)
      ensures i < |blocks[b]| ==> y.k == blocks[b][i].k || Before(blocks[b][i].k, y.k)
      ensures y.k.user == k.user ==> i < |blocks[b]|
    {
      RowFromBlock(index, blocks, k, b, i, y);
    }
    if i < |blocks[b]| {
      assert InBlocks(blocks, blocks[b][i]);
    }
  }

  lemma RowFromBlock(index: seq<IndexRow>, blocks: seq<seq<Row>>, k: TableKey, b: nat, i: nat, y: Row)
    requires GoodBlocks(blocks) && GoodIndex(index, blocks) && |index| == |blocks| && b < |index| && i <= |blocks[b]|
    requires (forall j :: 0 <= j < b ==> Before(index[j].sep, k)) && !Before(index[b].sep, k)
    requires (forall j :: 0 <= j < i ==> Before(blocks[b][j].k, k))
    requires InBlocks(blocks, y) && !Before(y.k, k)
    ensures i < |blocks[b]| ==> y.k == blocks[b][i].k || Before(blocks[b][i].k, y.k)
    ensures y.k.user == k.user ==> i < |blocks[b]|
  {
    var c :| 0 <= c < |blocks| && y in blocks[c];
    if c < b {
      EarlierBlocks(index, blocks, c, y, k);
    }
    assert c >= b;
    if c == b {
      var j :| 0 <= j < |blocks[b]| && blocks[b][j] == y;
      assert Increasing(blocks[b]) && i <= j;
    } else {
      RowFromLaterBlock(index, blocks, k, b, i, c, y);
    }
  }

  lemma RowFromLaterBlock(index: seq<IndexRow>, blocks: seq<seq<Row>>, k: TableKey, b: nat, i: nat, c: nat, y: Row)
    requires GoodBlocks(blocks) && GoodIndex(index, blocks) && b < |index| && i <= |blocks[b]| && b < c < |blocks| && y in blocks[c]
    requires !Before(index[b].sep, k)
    requires (forall j :: 0 <= j < i ==> Before(blocks[b][j].k, k))
    ensures i < |blocks[b]| ==> Before(blocks[b][i].k, y.k)
    ensures y.k.user == k.user ==> i < |blocks[b]|
  {
    LaterBlocks(index, blocks, b, c, y, k);
    if i < |blocks[b]| {
      var x := blocks[b][i];
      BlockUpTo(index, blocks, b, x);
      BeforeTotal(index[b].sep, x.k);
      assert Parts(LastOf(blocks[b]), index[b].sep, y);
      if x.k != index[b].sep {
        BeforeTransitive(x.k, index[b].sep, y.k);
      }
    } else {
      var last := blocks[b][|blocks[b]| - 1];
      assert Before(last.k, k) && index[b].sep != last.k;
    }
  }

  /** Through the index to one block, past it if its filter rules the user key out, and then through the
      block. */
  method InternalGet(t: Table, hash: B.Hash, k: TableKey, ghost blocks: seq<seq<Row>>, ghost offs: seq<nat>, ghost end: nat,
                     ghost probes: nat, ghost result: seq<Byte>, ghost filterOffsets: seq<nat>, ghost groups: seq<seq<Bytes>>)
    returns (saved: Option<Row>)
    requires GoodTable(t, blocks, offs, end) && GoodFilterBlock(t, blocks, offs, hash, probes, result, filterOffsets, groups)
    ensures saved.Some? ==> IsFirstFrom(blocks, k, saved.value)
    ensures forall x :: InBlocks(blocks, x) && !Before(x.k, k) && x.k.user == k.user ==> saved.Some?
  {
    var b := SeekIndex(t.index, k, blocks);
    if b == |t.index| {
      NothingBehind(t.index, blocks, k);
      return None;
    }
    var offset := t.index[b].offset;
    if t.filter.Some? {
      var may := F.KeyMayMatch(hash, t.filter.value, offset, k.user);
      if !may {
        FilteredOut(t, hash, k, blocks, offs, end, probes, result, filterOffsets, groups, b);
        return None;
      }
    }
    var block := t.file[offset];
    var i := SeekBlock(block, k);
    OneBlockIsEnough(t.index, blocks, k, b, i);
    saved := if i < |block| then Some(block[i]) else None;
  }

  lemma NothingBehind(index: seq<IndexRow>, blocks: seq<seq<Row>>, k: TableKey)
    requires GoodBlocks(blocks) && GoodIndex(index, blocks) && |index| == |blocks|
    requires forall j :: 0 <= j < |index| ==> Before(index[j].sep, k)
    ensures forall x :: InBlocks(blocks, x) ==> Before(x.k, k)
  {
    forall x | InBlocks(blocks, x) ensures Before(x.k, k) {
      var c :| 0 <= c < |blocks| && x in blocks[c];
      EarlierBlocks(index, blocks, c, x, k);
    }
  }

  /** If the filter rules the user key out, the block does not have it, and no other block from the key
      on can. */
  lemma FilteredOut(t: Table, hash: B.Hash, k: TableKey, blocks: seq<seq<Row>>, offs: seq<nat>, end: nat,
                    probes: nat, result: seq<Byte>, filterOffsets: seq<nat>, groups: seq<seq<Bytes>>, b: nat)
    requires GoodTable(t, blocks, offs, end) && GoodFilterBlock(t, blocks, offs, hash, probes, result, filterOffsets, groups)
    requires t.filter.Some? && b < |t.index|
    requires (forall j :: 0 <= j < b ==> Before(t.index[j].sep, k)) && !Before(t.index[b].sep, k)
    requires !F.Answer(hash, t.filter.value, t.index[b].offset, k.user)
    ensures forall x :: InBlocks(blocks, x) && !Before(x.k, k) ==> x.k.user != k.user
  {
    NotInBlock(t, hash, k.user, blocks, offs, end, probes, result, filterOffsets, groups, b);
    hide GoodFilterBlock, GoodFile;
    var i := FirstFrom(blocks[b], k);
    forall x | InBlocks(blocks, x) && !Before(x.k, k) ensures x.k.user != k.user {
      RowFromBlock(t.index, blocks, k, b, i, x);
      if x.k.user == k.user {
        assert blocks[b][i] in blocks[b];
        UserInBetween(k, blocks[b][i].k, x.k);
      }
    }
  }

  lemma NotInBlock(t: Table, hash: B.Hash, u: Bytes, blocks: seq<seq<Row>>, offs: seq<nat>, end: nat,
                   probes: nat, result: seq<Byte>, filterOffsets: seq<nat>, groups: seq<seq<Bytes>>, b: nat)
    requires GoodTable(t, blocks, offs, end) && GoodFilterBlock(t, blocks, offs, hash, probes, result, filterOffsets, groups)
    requires t.filter.Some? && b < |t.index| && !F.Answer(hash, t.filter.value, t.index[b].offset, u)
    ensures forall x :: x in blocks[b] ==> x.k.user != u
  {
    hide F.Answer;
    assert InFilters(groups, offs[b], blocks[b]);
    if F.KeyBelongs(groups, offs[b], u) {
      F.KeyOfBlockMatches(hash, t.filter.value, offs[b], u, probes, result, filterOffsets, groups);
    }
  }

  lemma FirstFrom(block: seq<Row>, k: TableKey) returns (i: nat)
    ensures i <= |block| && (forall j :: 0 <= j < i ==> Before(block[j].k, k)) && (i < |block| ==> !Before(block[i].k, k))
  {
    i := 0;
    while i < |block| && Before(block[i].k, k)
      invariant i <= |block| && forall j :: 0 <= j < i ==> Before(block[j].k, k)
    {
      i := i + 1;
    }
  }

  lemma UserInBetween(k: TableKey, x: TableKey, y: TableKey)
    requires !Before(x, k) && (x == y || Before(x, y)) && y.user == k.user
    ensures x.user == k.user
  {
    BeforeTotal(x, k);
    if Less(k.user, x.user) && Less(x.user, k.user) {
      LessTransitive(k.user, x.user, k.user);
    }
    LessIrreflexive(k.user);
  }

  // ----- Writing a table -----

  /** A row behind everything written so far. */
  ghost predicate IsBehind(index: seq<IndexRow>, blocks: seq<seq<Row>>, x: Row)
    requires GoodBlocks(blocks) && |index| <= |blocks|
  {
    forall i :: 0 <= i < |index| ==> Parts(LastOf(blocks[i]), index[i].sep, x)
  }

  lemma StillBehind(index: seq<IndexRow>, blocks: seq<seq<Row>>, x: Row, y: Row)
    requires GoodBlocks(blocks) && |index| <= |blocks| && IsBehind(index, blocks, x) && Before(x.k, y.k)
    ensures IsBehind(index, blocks, y)
  {
    forall i | 0 <= i < |index| ensures Parts(LastOf(blocks[i]), index[i].sep, y) {
      BeforeTransitive(index[i].sep, x.k, y.k);
      if index[i].sep != LastOf(blocks[i]) && x.k.user != y.k.user {
        LessTransitive(index[i].sep.user, x.k.user, y.k.user);
      }
    }
  }

  lemma IncreasingAppend(rows: seq<Row>, x: Row)
    requires Increasing(rows) && (rows != [] ==> Before(LastOf(rows), x.k))
    ensures Increasing(rows + [x])
  {
    forall i | 0 <= i < |rows| ensures Before(rows[i].k, x.k) {
      if i < |rows| - 1 {
        BeforeTransitive(rows[i].k, LastOf(rows), x.k);
      }
    }
  }

  class TableBuilder {
    const filter: F.FilterBlockBuilder?
    const blockSize: nat
    const sizeOf: seq<Row> -> nat
    var offset: nat
    var dataBlock: seq<Row>
    var index: seq<IndexRow>
    var file: map<nat, seq<Row>>
    var lastKey: TableKey
    var numEntries: nat
    var pendingIndexEntry: bool
    var pendingHandle: nat
    ghost var blocks: seq<seq<Row>>
    ghost var offs: seq<nat>

    /** The blocks written, the one being filled, and the index so far; the index entry of the last block
        waits for the first key behind it. */
    ghost predicate Valid()
      reads this, filter
    {
      && GoodBlocks(blocks) && GoodIndex(index, blocks) && GoodFile(index, blocks, file, offs, offset)
      && Increasing(dataBlock) && (forall x :: x in dataBlock ==> IsBehind(index, blocks, x))
      && |blocks| == |index| + (if pendingIndexEntry then 1 else 0)
      && (pendingIndexEntry ==> dataBlock == [] && pendingHandle == offs[|index|] && lastKey == LastOf(blocks[|index|]))
      && (dataBlock != [] ==> lastKey == LastOf(dataBlock))
      && (numEntries == 0 <==> blocks == [] && dataBlock == [])
      && (numEntries > 0 ==> pendingIndexEntry || dataBlock != [])
    }

    /** The filter builder keeps pace with the file, and has the keys of every block. */
    ghost predicate FilterValid()
      requires |offs| == |blocks|
      reads this, filter
    {
      filter != null ==>
        && filter.Valid() && |filter.groups| == offset / F.FILTER_BASE
        && AllInFilters(filter.Groups(), offs, blocks) && InFilters(filter.Groups(), offset, dataBlock)
    }

    /** All rows added. */
    ghost predicate Has(x: Row)
      reads this
    {
      x in dataBlock || InBlocks(blocks, x)
    }

    constructor (filter_: F.FilterBlockBuilder?, blockSize_: nat, sizeOf_: seq<Row> -> nat)
      requires filter_ != null ==> filter_.Valid() && filter_.groups == [] && filter_.keys == []
      ensures Valid() && FilterValid() && numEntries == 0 && (forall x :: !Has(x)) && filter == filter_
    {
      filter, blockSize, sizeOf := filter_, blockSize_, sizeOf_;
      offset, dataBlock, index, file := 0, [], [], map[];
      lastKey, numEntries, pendingIndexEntry, pendingHandle := TableKey([], 0), 0, false, 0;
      blocks, offs := [], [];
    }

    /** The waiting index entry gets a key between its block and the next. */
    method AddIndexEntry(key: TableKey)
      requires Valid() && pendingIndexEntry && Before(lastKey, key)
      modifies this`index, this`pendingIndexEntry, this`lastKey
      ensures GoodIndex(index, blocks) && GoodFile(index, blocks, file, offs, offset) && |blocks| == |index|
      ensures !pendingIndexEntry && forall value :: IsBehind(index, blocks, Row(key, value))
    {
      hide IsInternalSeparator;
      var sep := FindShortestInternalSeparator(lastKey, key);
      ghost var last := blocks[|index|][|blocks[|index|]| - 1];
      forall value: Bytes ensures IsBehind(index, blocks, Row(key, value)) {
        forall i | 0 <= i < |index| ensures Parts(LastOf(blocks[i]), index[i].sep, last) {
          assert last in blocks[|index|];
        }
        StillBehind(index, blocks, last, Row(key, value));
      }
      lastKey := sep;
      index := index + [IndexRow(sep, pendingHandle)];
      pendingIndexEntry := false;
    }

    /** Writes the block being filled, if it has any rows; its index entry waits. */
    method Flush()
      requires Valid() && FilterValid()
      modifies this, filter
      ensures Valid() && FilterValid() && dataBlock == [] && numEntries == old(numEntries)
      ensures numEntries > 0 ==> pendingIndexEntry && lastKey == old(lastKey)
      ensures forall x :: Has(x) <==> old(Has(x))
      ensures blocks == old(blocks) + if old(dataBlock) == [] then [] else [old(dataBlock)]
    {
      if dataBlock != [] {
        ghost var blocks0, offs0, offset0, block := blocks, offs, offset, dataBlock;
        AppendedBlock(index, blocks, dataBlock);
        AppendedInFile(index, blocks, file, offs, offset, dataBlock, offset + sizeOf(dataBlock) + BLOCK_TRAILER_SIZE);
        AppendedMembers(blocks, dataBlock);
        file := file[offset := dataBlock];
        pendingHandle := offset;
        blocks, offs := blocks + [dataBlock], offs + [offset];
        offset := offset + sizeOf(dataBlock) + BLOCK_TRAILER_SIZE;
        dataBlock := [];
        pendingIndexEntry := true;
        if filter != null {
          ghost var groups := filter.Groups();
          filter.StartBlock(offset);
          MoreGroups(groups, filter.Groups(), offs0, blocks0, offset0, block);
        }
      }
    }

    /** No index entry waits, and the row may come next. */
    ghost predicate MayTake(x: Row)
      reads this
    {
      && GoodBlocks(blocks) && GoodIndex(index, blocks) && GoodFile(index, blocks, file, offs, offset)
      && |blocks| == |index| && !pendingIndexEntry && IsBehind(index, blocks, x)
      && Increasing(dataBlock) && (forall y :: y in dataBlock ==> IsBehind(index, blocks, y))
      && (dataBlock != [] ==> Before(LastOf(dataBlock), x.k))
    }

    /** Puts a row into the block being filled, and its key into the filter. */
    method TakeRow(key: TableKey, value: Bytes)
      requires MayTake(Row(key, value)) && FilterValid()
      modifies this`lastKey, this`numEntries, this`dataBlock, filter
      ensures Valid() && FilterValid() && numEntries == old(numEntries) + 1 && lastKey == key
      ensures dataBlock == old(dataBlock) + [Row(key, value)]
    {
      hide GoodIndex, GoodBlocks, IsBehind, Before;
      ghost var row := Row(key, value);
      if filter != null {
        ghost var groups := filter.Groups();
        filter.AddKey(key.user);
        OneMoreKey(groups, filter.Groups(), key.user, offs, blocks, offset, dataBlock, row);
      }
      IncreasingAppend(dataBlock, row);
      lastKey := key;
      numEntries := numEntries + 1;
      dataBlock := dataBlock + [Row(key, value)];
    }

    method Add(key: TableKey, value: Bytes)
      requires Valid() && FilterValid() && (numEntries > 0 ==> Before(lastKey, key))
      modifies this, filter
      ensures Valid() && FilterValid() && numEntries == old(numEntries) + 1 && lastKey == key
      ensures forall x :: Has(x) <==> old(Has(x)) || x == Row(key, value)
      ensures var block := old(dataBlock) + [Row(key, value)];
              if sizeOf(block) >= blockSize then dataBlock == [] && blocks == old(blocks) + [block]
              else dataBlock == block && blocks == old(blocks)
    {
      hide GoodIndex, GoodBlocks, GoodFile, Parts, Before, InBlocks, Increasing, AllInFilters, InFilters;
      if pendingIndexEntry {
        AddIndexEntry(key);
      } else if dataBlock != [] {
        assert dataBlock[|dataBlock| - 1] in dataBlock;
        StillBehind(index, blocks, dataBlock[|dataBlock| - 1], Row(key, value));
      }
      TakeRow(key, value);
      if sizeOf(dataBlock) >= blockSize {
        Flush();
      }
    }

    /** The index entry of the last block, if it still waits, gets a key at or after the block. */
    method CloseIndex()
      requires Valid() && dataBlock == [] && (numEntries > 0 ==> pendingIndexEntry)
      modifies this`index, this`pendingIndexEntry, this`lastKey
      ensures GoodIndex(index, blocks) && GoodFile(index, blocks, file, offs, offset) && |blocks| == |index|
    {
      if pendingIndexEntry {
        hide IsInternalSuccessor, GoodIndex, GoodBlocks, GoodFile, Closes, Increasing, IsBehind;
        var sep := FindShortInternalSuccessor(lastKey);
        LastIsClosed(index, blocks, file, offs, offset, sep, pendingHandle);
        lastKey := sep;
        index := index + [IndexRow(sep, pendingHandle)];
        pendingIndexEntry := false;
      }
    }

    /** The finished table. */
    method Finish() returns (t: Table)
      requires Valid() && FilterValid()
      modifies this, filter
      ensures GoodTable(t, blocks, offs, offset)
      ensures forall x :: InBlocks(blocks, x) <==> old(Has(x))
      ensures t.filter.Some? <==> filter != null
      ensures filter != null && |filter.result| < 0x1_0000_0000 ==>
                GoodFilterBlock(t, blocks, offs, filter.hash, B.ProbeCount(filter.bitsPerKey), filter.result, filter.offsets, filter.groups)
    {
      Flush();
      CloseIndex();
      hide GoodIndex, GoodBlocks, InBlocks;
      t := Table(index, file, None);
      if filter != null {
        ghost var groups := filter.Groups();
        var contents := filter.Finish();
        FinishedGroups(groups, filter.groups, offs, blocks);
        t := t.(filter := Some(contents));
      }
    }
  }

  /** The index entry of the last block has no block behind it to mind. */
  lemma LastIsClosed(index: seq<IndexRow>, blocks: seq<seq<Row>>, file: map<nat, seq<Row>>, offs: seq<nat>, end: nat, sep: TableKey, handle: nat)
    requires GoodBlocks(blocks) && GoodIndex(index, blocks) && GoodFile(index, blocks, file, offs, end)
    requires |blocks| == |index| + 1 && |offs| == |blocks| && Closes(LastOf(blocks[|index|]), sep) && handle == offs[|index|]
    ensures GoodIndex(index + [IndexRow(sep, handle)], blocks) && GoodFile(index + [IndexRow(sep, handle)], blocks, file, offs, end)
  {
    hide Closes, Increasing;
  }

  // ----- What writing a block keeps -----

  lemma AppendedBlock(index: seq<IndexRow>, blocks: seq<seq<Row>>, block: seq<Row>)
    requires GoodBlocks(blocks) && GoodIndex(index, blocks) && block != [] && Increasing(block)
    requires forall x :: x in block ==> IsBehind(index, blocks, x)
    ensures GoodBlocks(blocks + [block]) && GoodIndex(index, blocks + [block])
  {
    hide Increasing;
    var more := blocks + [block];
    forall i, j, x | 0 <= i < |index| && i < j < |more| && x in more[j] ensures Parts(LastOf(more[i]), index[i].sep, x) {
      assert j == |blocks| ==> IsBehind(index, blocks, x);
    }
  }

  lemma AppendedInFile(index: seq<IndexRow>, blocks: seq<seq<Row>>, file: map<nat, seq<Row>>, offs: seq<nat>, offset: nat,
                       block: seq<Row>, end: nat)
    requires GoodFile(index, blocks, file, offs, offset) && offset < end
    ensures GoodFile(index, blocks + [block], file[offset := block], offs + [offset], end)
  {
  }

  lemma AppendedMembers(blocks: seq<seq<Row>>, block: seq<Row>)
    ensures forall x :: InBlocks(blocks + [block], x) <==> InBlocks(blocks, x) || x in block
  {
    var more := blocks + [block];
    forall x ensures InBlocks(more, x) <==> InBlocks(blocks, x) || x in block {
      if InBlocks(blocks, x) {
        var i :| 0 <= i < |blocks| && x in blocks[i];
        assert x in more[i];
      }
      if x in block {
        assert x in more[|blocks|];
      }
    }
  }

  lemma MoreGroups(groups: seq<seq<Bytes>>, groups': seq<seq<Bytes>>, offs: seq<nat>, blocks: seq<seq<Row>>, offset: nat, block: seq<Row>)
    requires groups <= groups' && |offs| == |blocks| && AllInFilters(groups, offs, blocks) && InFilters(groups, offset, block)
    ensures AllInFilters(groups', offs + [offset], blocks + [block])
  {
    forall i | 0 <= i < |blocks| + 1 ensures InFilters(groups', (offs + [offset])[i], (blocks + [block])[i]) {
      assert i < |blocks| ==> InFilters(groups, offs[i], blocks[i]);
    }
  }

  lemma OneMoreKey(groups: seq<seq<Bytes>>, groups': seq<seq<Bytes>>, u: Bytes, offs: seq<nat>, blocks: seq<seq<Row>>,
                   offset: nat, block: seq<Row>, row: Row)
    requires groups != [] && groups' == groups[..|groups| - 1] + [groups[|groups| - 1] + [u]] && row.k.user == u
    requires offset / F.FILTER_BASE == |groups| - 1
    requires |offs| == |blocks| && AllInFilters(groups, offs, blocks) && InFilters(groups, offset, block)
    ensures AllInFilters(groups', offs, blocks) && InFilters(groups', offset, block + [row])
  {
    assert forall i, k :: 0 <= i < |groups| && k in groups[i] ==> k in groups'[i];
    forall i | 0 <= i < |blocks| ensures InFilters(groups', offs[i], blocks[i]) {
      assert InFilters(groups, offs[i], blocks[i]);
    }
  }

  /** The last filter is made only if it has keys. */
  lemma FinishedGroups(groups: seq<seq<Bytes>>, made: seq<seq<Bytes>>, offs: seq<nat>, blocks: seq<seq<Row>>)
    requires groups != [] && |offs| == |blocks| && AllInFilters(groups, offs, blocks) && GoodBlocks(blocks)
    requires made == if groups[|groups| - 1] == [] then groups[..|groups| - 1] else groups
    ensures AllInFilters(made, offs, blocks)
  {
    forall i | 0 <= i < |blocks| ensures InFilters(made, offs[i], blocks[i]) {
      assert InFilters(groups, offs[i], blocks[i]) && blocks[i][0] in blocks[i];
      assert blocks[i][0].k.user in groups[offs[i] / F.FILTER_BASE];
    }
  }
}
