/** An index of blocks walked as one run of entries: a table file, or the files of one level. */
module TwoLevelIterators {
  import opened Entries
  import opened Cursors

  /** Block of an index position; behind the last there is nothing. */
  function BlockAt(index: seq<Entry>, blocks: map<string, seq<Entry>>, b: int): seq<Entry> {
    if 0 <= b < |index| && index[b].value in blocks then blocks[index[b].value] else []
  }

  /** Every index entry names a block by its handle; its key is not before any key of that block and
      before all keys of the blocks behind. */
  ghost predicate WellIndexed(index: seq<Entry>, blocks: map<string, seq<Entry>>) {
    && (forall b :: 0 <= b < |index| ==> index[b].value in blocks && Sorted(BlockAt(index, blocks, b)))
    && (forall b, x :: 0 <= b < |index| && x in BlockAt(index, blocks, b) ==> !Lt(index[b].k, x.k))
    && (forall b, c, x :: 0 <= b < c < |index| && x in BlockAt(index, blocks, c) ==> Lt(index[b].k, x.k))
  }

  /** All entries behind the index. */
  ghost function AllEntries(index: seq<Entry>, blocks: map<string, seq<Entry>>): set<Entry> {
    set b, e | 0 <= b < |index| && e in BlockAt(index, blocks, b) :: e
  }

  function EntryAt(block: seq<Entry>, p: int): Option<Entry> {
    if 0 <= p < |block| then Some(block[p]) else None
  }

  /** What is in reach of the move is exactly what stands at or behind position `p` of block `b`. */
  ghost predicate Front(index: seq<Entry>, blocks: map<string, seq<Entry>>, move: Move, from: Option<Entry>, b: int, p: int) {
    && (forall c, x :: 0 <= c < b && x in BlockAt(index, blocks, c) ==> !InReach(x, move, from))
    && (forall c, x :: b < c < |index| && x in BlockAt(index, blocks, c) ==> InReach(x, move, from))
    && forall j :: 0 <= j < |BlockAt(index, blocks, b)| ==> (p <= j <==> InReach(BlockAt(index, blocks, b)[j], move, from))
  }

  /** What is in reach of the move is exactly what stands at or before position `p` of block `b`. */
  ghost predicate Back(index: seq<Entry>, blocks: map<string, seq<Entry>>, move: Move, from: Option<Entry>, b: int, p: int) {
    && (forall c, x :: 0 <= c < b && c < |index| && x in BlockAt(index, blocks, c) ==> InReach(x, move, from))
    && (forall c, x :: b < c < |index| && x in BlockAt(index, blocks, c) ==> !InReach(x, move, from))
    && forall j :: 0 <= j < |BlockAt(index, blocks, b)| ==> (j <= p <==> InReach(BlockAt(index, blocks, b)[j], move, from))
  }

  /** Around an entry the blocks before hold smaller keys and the blocks behind greater ones. */
  lemma AroundEntry(index: seq<Entry>, blocks: map<string, seq<Entry>>, b: nat, e: Entry, c: nat, x: Entry)
    requires WellIndexed(index, blocks) && b < |index| && c < |index|
    requires e in BlockAt(index, blocks, b) && x in BlockAt(index, blocks, c)
    ensures c < b ==> Lt(x.k, e.k)
    ensures b < c ==> Lt(e.k, x.k)
  {
    if c < b {
      assert !Lt(index[c].k, x.k) && Lt(index[c].k, e.k);
    } else if b < c {
      assert !Lt(index[b].k, e.k) && Lt(index[b].k, x.k);
    }
  }

  lemma InOrder(run: seq<Entry>, p: nat, j: nat)
    requires Sorted(run) && p < |run| && j < |run|
    ensures p < j <==> Lt(run[p].k, run[j].k)
    ensures j < p <==> Lt(run[j].k, run[p].k)
  {
  }

  lemma FrontLands(index: seq<Entry>, blocks: map<string, seq<Entry>>, move: Move, from: Option<Entry>, b: int, p: int)
    requires WellIndexed(index, blocks) && Front(index, blocks, move, from, b, p) && !move.ToLast? && !move.Prev?
    requires 0 <= b <= |index| && (b < |index| ==> 0 <= p < |BlockAt(index, blocks, b)|)
    ensures Lands(AllEntries(index, blocks), move, from, EntryAt(BlockAt(index, blocks, b), p))
  {
    forall x | x in AllEntries(index, blocks) && InReach(x, move, from)
      ensures b < |index| && (x != BlockAt(index, blocks, b)[p] ==> Lt(BlockAt(index, blocks, b)[p].k, x.k))
    {
      var c :| 0 <= c < |index| && x in BlockAt(index, blocks, c);
      assert b <= c;
      if b == c {
        var j :| 0 <= j < |BlockAt(index, blocks, b)| && BlockAt(index, blocks, b)[j] == x;
        assert p <= j;
        assert p < j ==> Lt(BlockAt(index, blocks, b)[p].k, x.k);
      } else {
        AroundEntry(index, blocks, b, BlockAt(index, blocks, b)[p], c, x);
      }
    }
    if b < |index| {
      assert BlockAt(index, blocks, b)[p] in BlockAt(index, blocks, b);
    }
  }

  lemma BackLands(index: seq<Entry>, blocks: map<string, seq<Entry>>, move: Move, from: Option<Entry>, b: int, p: int)
    requires WellIndexed(index, blocks) && Back(index, blocks, move, from, b, p) && (move.ToLast? || move.Prev?)
    requires -1 <= b < |index| && (0 <= b ==> 0 <= p < |BlockAt(index, blocks, b)|)
    ensures Lands(AllEntries(index, blocks), move, from, EntryAt(BlockAt(index, blocks, b), p))
  {
    forall x | x in AllEntries(index, blocks) && InReach(x, move, from)
      ensures 0 <= b && (x != BlockAt(index, blocks, b)[p] ==> Lt(x.k, BlockAt(index, blocks, b)[p].k))
    {
      var c :| 0 <= c < |index| && x in BlockAt(index, blocks, c);
      assert c <= b;
      if b == c {
        var j :| 0 <= j < |BlockAt(index, blocks, b)| && BlockAt(index, blocks, b)[j] == x;
        assert j <= p;
        assert j < p ==> Lt(x.k, BlockAt(index, blocks, b)[p].k);
      } else {
        AroundEntry(index, blocks, b, BlockAt(index, blocks, b)[p], c, x);
      }
    }
    if 0 <= b {
      assert BlockAt(index, blocks, b)[p] in BlockAt(index, blocks, b);
    }
  }

  /** Once a block is exhausted the front is the beginning of the next one. */
  lemma FrontMovesOn(index: seq<Entry>, blocks: map<string, seq<Entry>>, move: Move, from: Option<Entry>, b: nat, p: nat)
    requires Front(index, blocks, move, from, b, p) && |BlockAt(index, blocks, b)| <= p
    ensures Front(index, blocks, move, from, b + 1, 0)
  {
    forall c, x | 0 <= c < b + 1 && x in BlockAt(index, blocks, c) ensures !InReach(x, move, from) {
      if c == b {
        var j :| 0 <= j < |BlockAt(index, blocks, b)| && BlockAt(index, blocks, b)[j] == x;
      }
    }
    var block := BlockAt(index, blocks, b + 1);
    forall j | 0 <= j < |block| ensures InReach(block[j], move, from) {
      assert block[j] in block;
    }
  }

  lemma BackMovesOn(index: seq<Entry>, blocks: map<string, seq<Entry>>, move: Move, from: Option<Entry>, b: nat)
    requires Back(index, blocks, move, from, b, -1)
    ensures Back(index, blocks, move, from, b - 1, |BlockAt(index, blocks, b - 1)| - 1)
  {
    forall c, x | b - 1 < c < |index| && x in BlockAt(index, blocks, c) ensures !InReach(x, move, from) {
      if c == b {
        var j :| 0 <= j < |BlockAt(index, blocks, b)| && BlockAt(index, blocks, b)[j] == x;
      }
    }
    var block := BlockAt(index, blocks, b - 1);
    forall j | 0 <= j < |block| ensures InReach(block[j], move, from) {
      assert block[j] in block;
    }
  }

  ghost predicate Surrounds(index: seq<Entry>, blocks: map<string, seq<Entry>>, b: nat, e: Entry) {
    forall c, x :: 0 <= c < |index| && x in BlockAt(index, blocks, c) ==> (c < b ==> Lt(x.k, e.k)) && (b < c ==> Lt(e.k, x.k))
  }

  lemma AllSurround(index: seq<Entry>, blocks: map<string, seq<Entry>>, b: nat, e: Entry)
    requires WellIndexed(index, blocks) && b < |index| && e in BlockAt(index, blocks, b)
    ensures Surrounds(index, blocks, b, e)
  {
    forall c, x | 0 <= c < |index| && x in BlockAt(index, blocks, c) ensures (c < b ==> Lt(x.k, e.k)) && (b < c ==> Lt(e.k, x.k)) {
      AroundEntry(index, blocks, b, e, c, x);
    }
  }

  lemma NextIsFront(index: seq<Entry>, blocks: map<string, seq<Entry>>, b: nat, block: seq<Entry>, p: nat)
    requires Sorted(block) && p < |block| && block == BlockAt(index, blocks, b)
    requires Surrounds(index, blocks, b, block[p])
    ensures Front(index, blocks, Next, Some(block[p]), b, p + 1)
  {
    forall j | 0 <= j < |block| ensures p + 1 <= j <==> Lt(block[p].k, block[j].k) {
      InOrder(block, p, j);
    }
  }

  lemma PrevIsBack(index: seq<Entry>, blocks: map<string, seq<Entry>>, b: nat, block: seq<Entry>, p: nat)
    requires Sorted(block) && p < |block| && block == BlockAt(index, blocks, b)
    requires Surrounds(index, blocks, b, block[p])
    ensures Back(index, blocks, Prev, Some(block[p]), b, p - 1)
  {
    forall j | 0 <= j < |block| ensures j <= p - 1 <==> Lt(block[j].k, block[p].k) {
      InOrder(block, p, j);
    }
  }

  /** The first index key not before the target names the only block to search. */
  lemma SeekIsFront(index: seq<Entry>, blocks: map<string, seq<Entry>>, target: InternalKey, from: Option<Entry>, b: nat, p: nat)
    requires WellIndexed(index, blocks) && b <= |index|
    requires forall i :: 0 <= i < |index| ==> (i < b <==> Lt(index[i].k, target))
    requires forall j :: 0 <= j < |BlockAt(index, blocks, b)| ==> (j < p <==> Lt(BlockAt(index, blocks, b)[j].k, target))
    ensures Front(index, blocks, To(target), from, b, p)
  {
    forall c, x | 0 <= c < b && x in BlockAt(index, blocks, c) ensures Lt(x.k, target) {
      assert !Lt(index[c].k, x.k) && Lt(index[c].k, target);
    }
    forall c, x | b < c < |index| && x in BlockAt(index, blocks, c) ensures !Lt(x.k, target) {
      assert Lt(index[b].k, x.k) && !Lt(index[b].k, target);
    }
  }

  class TwoLevelIterator {
    const index: Cursor
    const blocks: map<string, seq<Entry>>
    /** Cursor over the block whose handle is `handle`. */
    var data: Cursor?
    var handle: string

    ghost function Repr(): set<object>
      reads this
    {
      {this, index} + (if data != null then {data} else {})
    }

    /** The data cursor walks the block that the index cursor stands on. */
    ghost predicate InStep()
      reads Repr()
    {
      && index.Ok() && WellIndexed(index.entries, blocks)
      && (data != null <==> index.Valid())
      && (data != null ==> data != index && data.Ok())
      && (data != null ==> handle == index.entries[index.pos].value && data.entries == BlockAt(index.entries, blocks, index.pos))
    }

    ghost predicate Ok()
      reads Repr()
    {
      && index.Ok() && WellIndexed(index.entries, blocks)
      && (data != null ==> InStep() && data.Valid())
    }

    predicate Valid()
      reads Repr()
    {
      data != null && data.Valid()
    }

    function Current(): Option<Entry>
      reads Repr()
    {
      if data != null then data.Current() else None
    }

    ghost function Rows(): set<Entry>
      requires WellIndexed(index.entries, blocks)
      reads this, index
    {
      AllEntries(index.entries, blocks)
    }

    constructor (index_: Cursor, blocks_: map<string, seq<Entry>>)
      requires index_.Ok() && WellIndexed(index_.entries, blocks_)
      ensures Ok() && !Valid() && index == index_ && blocks == blocks_
    {
      index, blocks := index_, blocks_;
      data, handle := null, "";
    }

    /** Opens the block under the index cursor, unless it is open already. */
    method InitDataBlock()
      requires index.Ok() && WellIndexed(index.entries, blocks)
      requires data != null ==> data != index && data.Ok() && handle in blocks && data.entries == blocks[handle]
      modifies this
      ensures InStep() && (data != null && data != old(data) ==> fresh(data))
    {
      if !index.Valid() {
        data := null;
      } else {
        var h := index.entries[index.pos].value;
        if data == null || h != handle {
          data := new Cursor(blocks[h]);
          handle := h;
        }
      }
    }

    method NextBlock()
      requires InStep() && index.Valid()
      modifies Repr()
      ensures InStep() && (data != null && data != old(data) ==> fresh(data))
      ensures index.pos == old(index.pos) + 1 && (data != null ==> data.pos == 0)
    {
      index.Next();
      InitDataBlock();
      if data != null {
        data.SeekToFirst();
      }
    }

    method PrevBlock()
      requires InStep() && index.Valid()
      modifies Repr()
      ensures InStep() && (data != null && data != old(data) ==> fresh(data))
      ensures index.Place() == old(index.pos) - 1 && (data != null ==> data.Place() == |data.entries| - 1)
    {
      index.Prev();
      InitDataBlock();
      if data != null {
        data.SeekToLast();
      }
    }

    /** On from exhausted blocks to the next entry, or to the end. */
    method SkipEmptyDataBlocksForward(ghost move: Move, ghost from: Option<Entry>)
      requires InStep() && !move.ToLast? && !move.Prev?
      requires Front(index.entries, blocks, move, from, index.pos, if data != null then data.pos else 0)
      modifies Repr()
      ensures Ok() && Lands(Rows(), move, from, Current())
      ensures data != null && data != old(data) ==> fresh(data)
    {
      while data == null || !data.Valid()
        invariant InStep() && (data != null && data != old(data) ==> fresh(data))
        invariant Front(index.entries, blocks, move, from, index.pos, if data != null then data.pos else 0)
        decreases |index.entries| - index.pos
      {
        if !index.Valid() {
          data := null;
          FrontLands(index.entries, blocks, move, from, index.pos, 0);
          return;
        }
        if data != null {
          FrontMovesOn(index.entries, blocks, move, from, index.pos, data.pos);
        }
        NextBlock();
      }
      FrontLands(index.entries, blocks, move, from, index.pos, data.pos);
    }

    /** Back from exhausted blocks to the previous entry, or to the beginning. */
    method SkipEmptyDataBlocksBackward(ghost move: Move, ghost from: Option<Entry>)
      requires InStep() && (move.ToLast? || move.Prev?)
      requires Back(index.entries, blocks, move, from, index.Place(), if data != null then data.Place() else 0)
      modifies Repr()
      ensures Ok() && Lands(Rows(), move, from, Current())
      ensures data != null && data != old(data) ==> fresh(data)
    {
      while data == null || !data.Valid()
        invariant InStep() && (data != null && data != old(data) ==> fresh(data))
        invariant Back(index.entries, blocks, move, from, index.Place(), if data != null then data.Place() else 0)
        decreases index.Place()
      {
        if !index.Valid() {
          data := null;
          BackLands(index.entries, blocks, move, from, -1, 0);
          return;
        }
        if data != null {
          BackMovesOn(index.entries, blocks, move, from, index.pos);
        }
        PrevBlock();
      }
      BackLands(index.entries, blocks, move, from, index.pos, data.pos);
    }

    method Seek(target: InternalKey)
      requires Ok()
      modifies Repr()
      ensures Ok() && Lands(Rows(), To(target), old(Current()), Current())
      ensures fresh(Repr() - old(Repr()))
    {
      ghost var from := Current();
      index.Seek(target);
      InitDataBlock();
      if data != null {
        data.Seek(target);
      }
      SeekIsFront(index.entries, blocks, target, from, index.pos, if data != null then data.pos else 0);
      SkipEmptyDataBlocksForward(To(target), from);
    }

    method SeekToFirst()
      requires Ok()
      modifies Repr()
      ensures Ok() && Lands(Rows(), ToFirst, old(Current()), Current())
      ensures fresh(Repr() - old(Repr()))
    {
      ghost var from := Current();
      index.SeekToFirst();
      InitDataBlock();
      if data != null {
        data.SeekToFirst();
      }
      SkipEmptyDataBlocksForward(ToFirst, from);
    }

    method SeekToLast()
      requires Ok()
      modifies Repr()
      ensures Ok() && Lands(Rows(), ToLast, old(Current()), Current())
      ensures fresh(Repr() - old(Repr()))
    {
      hide Lands, Rows;
      ghost var from := Current();
      index.SeekToLast();
      InitDataBlock();
      if data != null {
        data.SeekToLast();
      }
      SkipEmptyDataBlocksBackward(ToLast, from);
    }

    method Next()
      requires Ok() && Valid()
      modifies Repr()
      ensures Ok() && Lands(Rows(), Move.Next, old(Current()), Current())
      ensures fresh(Repr() - old(Repr()))
    {
      ghost var from := Current();
      AllSurround(index.entries, blocks, index.pos, data.entries[data.pos]);
      NextIsFront(index.entries, blocks, index.pos, data.entries, data.pos);
      data.Next();
      SkipEmptyDataBlocksForward(Move.Next, from);
    }

    method Prev()
      requires Ok() && Valid()
      modifies Repr()
      ensures Ok() && Lands(Rows(), Move.Prev, old(Current()), Current())
      ensures fresh(Repr() - old(Repr()))
    {
      ghost var from := Current();
      AllSurround(index.entries, blocks, index.pos, data.entries[data.pos]);
      PrevIsBack(index.entries, blocks, index.pos, data.entries, data.pos);
      data.Prev();
      SkipEmptyDataBlocksBackward(Move.Prev, from);
    }
  }
}
