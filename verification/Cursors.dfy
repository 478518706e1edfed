/** What every iterator has to do: stand where a cursor over a sorted sequence of entries stands. */
module Cursors {
  import opened Entries

  datatype Move = ToFirst | ToLast | To(target: InternalKey) | Next | Prev

  /** Whether a move that starts on `from` may land on `e`. */
  predicate InReach(e: Entry, move: Move, from: Option<Entry>) {
    match move
    case ToFirst => true
    case ToLast => true
    case To(target) => !Lt(e.k, target)
    case Next => from.Some? && Lt(from.value.k, e.k)
    case Prev => from.Some? && Lt(e.k, from.value.k)
  }

  /** A move lands on the nearest entry in reach, and on nothing if there is none. */
  ghost predicate Lands(entries: set<Entry>, move: Move, from: Option<Entry>, to: Option<Entry>) {
    match to
    case None => forall x :: x in entries ==> !InReach(x, move, from)
    case Some(e) => e in entries && InReach(e, move, from)
                    && forall x :: x in entries && InReach(x, move, from) && x != e ==>
                         if move.ToLast? || move.Prev? then Lt(x.k, e.k) else Lt(e.k, x.k)
  }

  /** So each move has one outcome. */
  lemma LandsOnOne(entries: set<Entry>, move: Move, from: Option<Entry>, a: Option<Entry>, b: Option<Entry>)
    requires Lands(entries, move, from, a) && Lands(entries, move, from, b)
    ensures a == b
  {
  }

  /** Going back undoes going forward, and the other way round. */
  lemma NextThenPrev(entries: set<Entry>, e: Entry, f: Entry)
    requires e in entries && f in entries
    requires forall a, b :: a in entries && b in entries && a.k == b.k ==> a == b
    ensures Lands(entries, Next, Some(e), Some(f)) <==> Lands(entries, Prev, Some(f), Some(e))
  {
    forall x | x in entries && x != e && x != f
      ensures Lt(x.k, e.k) || Lt(e.k, x.k)
      ensures Lt(x.k, f.k) || Lt(f.k, x.k)
    {
      assert x.k != e.k && x.k != f.k;
    }
  }

  /** Any mix of moves, and where they lead. */
  ghost predicate IsWalk(entries: set<Entry>, moves: seq<Move>, stops: seq<Option<Entry>>) {
    && |stops| == |moves| + 1
    && forall i :: 0 <= i < |moves| ==> Lands(entries, moves[i], stops[i], stops[i + 1])
  }

  /** Two iterators over the same entries that make the same moves stand on the same entries. */
  lemma {:induction false} WalksAgree(entries: set<Entry>, moves: seq<Move>, a: seq<Option<Entry>>, b: seq<Option<Entry>>, i: nat)
    requires IsWalk(entries, moves, a) && IsWalk(entries, moves, b) && a[0] == b[0]
    requires i <= |moves|
    ensures a[i] == b[i]
  {
    if i > 0 {
      WalksAgree(entries, moves, a, b, i - 1);
      assert Lands(entries, moves[i - 1], a[i - 1], a[i - 1 + 1]) && Lands(entries, moves[i - 1], b[i - 1], b[i - 1 + 1]);
      LandsOnOne(entries, moves[i - 1], a[i - 1], a[i], b[i]);
    }
  }

  // ----- The plainest cursor -----

  /** A position in a sorted run; every position past the end counts as standing on nothing. */
  class Cursor {
    const entries: seq<Entry>
    var pos: nat

    ghost predicate Ok()
      reads this
    {
      Sorted(entries) && pos <= |entries|
    }

    predicate Valid()
      reads this
    {
      pos < |entries|
    }

    /** The position, with -1 for standing on nothing. */
    ghost function Place(): int
      reads this
    {
      if pos < |entries| then pos else -1
    }

    function Current(): Option<Entry>
      reads this
    {
      if pos < |entries| then Some(entries[pos]) else None
    }

    constructor (run: seq<Entry>)
      requires Sorted(run)
      ensures Ok() && entries == run && !Valid()
    {
      entries := run;
      pos := |run|;
    }

    method SeekToFirst()
      requires Ok()
      modifies this
      ensures Ok() && pos == 0
      ensures Lands(ToSet(entries), ToFirst, old(Current()), Current())
    {
      pos := 0;
    }

    method SeekToLast()
      requires Ok()
      modifies this
      ensures Ok() && pos == if entries == [] then 0 else |entries| - 1
      ensures Lands(ToSet(entries), ToLast, old(Current()), Current())
    {
      pos := if |entries| == 0 then 0 else |entries| - 1;
    }

    method Seek(target: InternalKey)
      requires Ok()
      modifies this
      ensures Ok() && forall i :: 0 <= i < |entries| ==> (i < pos <==> Lt(entries[i].k, target))
      ensures Lands(ToSet(entries), To(target), old(Current()), Current())
    {
      var lo, hi := 0, |entries|;
      while lo < hi
        invariant 0 <= lo <= hi <= |entries|
        invariant forall i :: 0 <= i < lo ==> Lt(entries[i].k, target)
        invariant forall i :: hi <= i < |entries| ==> !Lt(entries[i].k, target)
      {
        var mid := (lo + hi) / 2;
        if Lt(entries[mid].k, target) {
          lo := mid + 1;
        } else {
          hi := mid;
        }
      }
      pos := lo;
    }

    method Next()
      requires Ok() && Valid()
      modifies this
      ensures Ok() && pos == old(pos) + 1
      ensures Lands(ToSet(entries), Move.Next, old(Current()), Current())
    {
      pos := pos + 1;
    }

    method Prev()
      requires Ok() && Valid()
      modifies this
      ensures Ok() && pos == if old(pos) == 0 then |entries| else old(pos) - 1
      ensures Lands(ToSet(entries), Move.Prev, old(Current()), Current())
    {
      pos := if pos == 0 then |entries| else pos - 1;
    }
  }

  /** The cursor stands on its first entry in reach. */
  ghost predicate Foremost(c: Cursor, move: Move, from: Option<Entry>)
    reads c
  {
    c.Ok() && forall j :: 0 <= j < |c.entries| ==> (j < c.pos <==> !InReach(c.entries[j], move, from))
  }

  /** The cursor stands on its last entry in reach. */
  ghost predicate Hindmost(c: Cursor, move: Move, from: Option<Entry>)
    reads c
  {
    c.Ok() && forall j :: 0 <= j < |c.entries| ==> (j <= c.Place() <==> InReach(c.entries[j], move, from))
  }
}
