/** Many sorted runs walked as one. */
module MergingIterators {
  import opened Entries
  import opened Cursors

  /** Entries of all children together. */
  ghost function Union(children: seq<Cursor>): set<Entry> {
    set i, e | 0 <= i < |children| && e in children[i].entries :: e
  }

  /** No key occurs in two children: sequence numbers are handed out once. */
  ghost predicate Apart(children: seq<Cursor>) {
    forall i, j :: 0 <= i < j < |children| ==> NoSharedKey(children[i].entries, children[j].entries)
  }

  /** `c` names the child whose entry is least. */
  ghost predicate IsSmallest(children: seq<Cursor>, n: nat, c: Option<nat>)
    requires n <= |children|
    reads children
  {
    && (c.Some? ==> c.value < n && children[c.value].Valid())
    && forall k :: 0 <= k < n && children[k].Valid() ==>
           && c.Some?
           && (k != c.value ==> Lt(children[c.value].Current().value.k, children[k].Current().value.k))
  }

  ghost predicate IsLargest(children: seq<Cursor>, n: nat, c: Option<nat>)
    requires n <= |children|
    reads children
  {
    && (c.Some? ==> n <= c.value < |children| && children[c.value].Valid())
    && forall k :: n <= k < |children| && children[k].Valid() ==>
           && c.Some?
           && (k != c.value ==> Lt(children[k].Current().value.k, children[c.value].Current().value.k))
  }

  ghost predicate AllForemost(children: seq<Cursor>, move: Move, from: Option<Entry>)
    reads children
  {
    forall i :: 0 <= i < |children| ==> Foremost(children[i], move, from)
  }

  ghost predicate AllHindmost(children: seq<Cursor>, move: Move, from: Option<Entry>)
    reads children
  {
    forall i :: 0 <= i < |children| ==> Hindmost(children[i], move, from)
  }

  lemma InUnion(children: seq<Cursor>, i: nat, j: nat)
    requires i < |children| && j < |children[i].entries|
    ensures children[i].entries[j] in Union(children)
  {
    var e := children[i].entries[j];
    assert e in children[i].entries;
  }

  lemma SmallestLands(children: seq<Cursor>, c: Option<nat>, move: Move, from: Option<Entry>)
    requires AllForemost(children, move, from) && IsSmallest(children, |children|, c)
    requires !move.ToLast? && !move.Prev?
    ensures Lands(Union(children), move, from, if c.Some? then children[c.value].Current() else None)
  {
    forall x | x in Union(children) && InReach(x, move, from)
      ensures c.Some? && (x != children[c.value].Current().value ==> Lt(children[c.value].Current().value.k, x.k))
    {
      var i, j :| 0 <= i < |children| && 0 <= j < |children[i].entries| && children[i].entries[j] == x;
      assert Foremost(children[i], move, from);
      assert children[i].Valid();
      assert children[i].pos < j ==> Lt(children[i].entries[children[i].pos].k, x.k);
    }
    if c.Some? {
      assert Foremost(children[c.value], move, from);
      InUnion(children, c.value, children[c.value].pos);
    }
  }

  lemma LargestLands(children: seq<Cursor>, c: Option<nat>, move: Move, from: Option<Entry>)
    requires AllHindmost(children, move, from) && IsLargest(children, 0, c)
    requires move.ToLast? || move.Prev?
    ensures Lands(Union(children), move, from, if c.Some? then children[c.value].Current() else None)
  {
    forall x | x in Union(children) && InReach(x, move, from)
      ensures c.Some? && (x != children[c.value].Current().value ==> Lt(x.k, children[c.value].Current().value.k))
    {
      var i, j :| 0 <= i < |children| && 0 <= j < |children[i].entries| && children[i].entries[j] == x;
      assert Hindmost(children[i], move, from);
      assert children[i].Valid();
      assert j < children[i].pos ==> Lt(x.k, children[i].entries[children[i].pos].k);
    }
    if c.Some? {
      assert Hindmost(children[c.value], move, from);
      InUnion(children, c.value, children[c.value].pos);
    }
  }

  /** The other children of the one with the least entry stand behind that entry. */
  lemma SmallestIsForemost(children: seq<Cursor>, c: nat, i: nat, move: Move, from: Option<Entry>)
    requires AllForemost(children, move, from) && IsSmallest(children, |children|, Some(c)) && i < |children| && i != c
    requires !move.ToLast? && !move.Prev?
    ensures Foremost(children[i], Next, children[c].Current())
  {
    assert Foremost(children[i], move, from) && Foremost(children[c], move, from);
    var k := children[c].Current().value.k;
    forall j | 0 <= j < |children[i].entries| ensures j < children[i].pos <==> !Lt(k, children[i].entries[j].k) {
      if children[i].Valid() && children[i].pos < j {
        assert Lt(children[i].Current().value.k, children[i].entries[j].k);
      }
    }
  }

  lemma LargestIsHindmost(children: seq<Cursor>, c: nat, i: nat, move: Move, from: Option<Entry>)
    requires AllHindmost(children, move, from) && IsLargest(children, 0, Some(c)) && i < |children| && i != c
    requires move.ToLast? || move.Prev?
    ensures Hindmost(children[i], Prev, children[c].Current())
  {
    assert Hindmost(children[i], move, from) && Hindmost(children[c], move, from);
    var k := children[c].Current().value.k;
    forall j | 0 <= j < |children[i].entries| ensures j <= children[i].Place() <==> Lt(children[i].entries[j].k, k) {
      if children[i].Valid() && j < children[i].pos {
        assert Lt(children[i].entries[j].k, children[i].Current().value.k);
      }
    }
  }

  /** Moves a child behind the entry with the given key. */
  method PutBehind(child: Cursor, key: InternalKey, ghost from: Entry)
    requires child.Ok() && from.k == key
    modifies child
    ensures Foremost(child, Next, Some(from))
  {
    child.Seek(key);
    if child.Valid() && Compare(key, child.entries[child.pos].k) == 0 {
      child.Next();
    }
  }

  /** Moves a child before the entry with the given key. */
  method PutBefore(child: Cursor, key: InternalKey, ghost from: Entry)
    requires child.Ok() && from.k == key
    modifies child
    ensures Hindmost(child, Prev, Some(from))
  {
    child.Seek(key);
    if child.Valid() {
      child.Prev();
    } else {
      child.SeekToLast();
    }
  }

  class MergingIterator {
    const children: seq<Cursor>
    var current: Option<nat>
    var forwards: bool

    ghost predicate Shape()
      reads this, children
    {
      && (forall i :: 0 <= i < |children| ==> children[i].Ok())
      && (forall i, j :: 0 <= i < j < |children| ==> children[i] != children[j])
      && Apart(children)
    }

    /** Going forwards the other children stand behind the current entry, going backwards before it. */
    ghost predicate Ok()
      reads this, children
    {
      && Shape()
      && (current.Some? ==> current.value < |children| && children[current.value].Valid())
      && (current.Some? ==> forall i :: 0 <= i < |children| && i != current.value ==>
                                if forwards then Foremost(children[i], Move.Next, Current()) else Hindmost(children[i], Move.Prev, Current()))
    }

    function Current(): Option<Entry>
      reads this, children
    {
      if current.Some? && current.value < |children| then children[current.value].Current() else None
    }

    predicate Valid()
      reads this
    {
      current.Some?
    }

    constructor (cursors: seq<Cursor>)
      requires forall i :: 0 <= i < |cursors| ==> cursors[i].Ok()
      requires forall i, j :: 0 <= i < j < |cursors| ==> cursors[i] != cursors[j]
      requires Apart(cursors)
      ensures Ok() && children == cursors && !Valid()
    {
      children, current, forwards := cursors, None, true;
    }

    method LeastChild() returns (smallest: Option<nat>)
      requires Shape()
      ensures IsSmallest(children, |children|, smallest)
    {
      smallest := None;
      for i := 0 to |children|
        invariant IsSmallest(children, i, smallest)
      {
        var child := children[i];
        if child.Valid() {
          if smallest.None? {
            smallest := Some(i);
          } else {
            var best := children[smallest.value];
            if Compare(child.entries[child.pos].k, best.entries[best.pos].k) < 0 {
              smallest := Some(i);
            }
          }
        }
      }
    }

    method FindSmallest(ghost move: Move, ghost from: Option<Entry>)
      requires Shape() && AllForemost(children, move, from) && !move.ToLast? && !move.Prev?
      modifies this
      ensures forwards && Ok() && Lands(Union(children), move, from, Current())
    {
      hide Foremost, Union, NoSharedKey, Lands;
      current := LeastChild();
      forwards := true;
      SmallestLands(children, current, move, from);
      if current.Some? {
        forall i | 0 <= i < |children| && i != current.value ensures Foremost(children[i], Move.Next, Current()) {
          SmallestIsForemost(children, current.value, i, move, from);
        }
      }
    }

    /** The greatest of the children's entries. */
    method GreatestChild() returns (largest: Option<nat>)
      requires Shape()
      ensures IsLargest(children, 0, largest)
    {
      largest := None;
      for i := |children| downto 0
        invariant IsLargest(children, i, largest)
      {
        var child := children[i];
        if child.Valid() {
          if largest.None? {
            largest := Some(i);
          } else {
            var best := children[largest.value];
            if Compare(child.entries[child.pos].k, best.entries[best.pos].k) > 0 {
              largest := Some(i);
            }
          }
        }
      }
    }

    method FindLargest(ghost move: Move, ghost from: Option<Entry>)
      requires Shape() && AllHindmost(children, move, from) && (move.ToLast? || move.Prev?)
      modifies this
      ensures !forwards && Ok() && Lands(Union(children), move, from, Current())
    {
      hide Hindmost, Union, NoSharedKey, Lands;
      current := GreatestChild();
      forwards := false;
      LargestLands(children, current, move, from);
      if current.Some? {
        forall i | 0 <= i < |children| && i != current.value ensures Hindmost(children[i], Move.Prev, Current()) {
          LargestIsHindmost(children, current.value, i, move, from);
        }
      }
    }

    method SeekToFirst()
      requires Ok()
      modifies this, children
      ensures Ok() && Lands(Union(children), ToFirst, old(Current()), Current())
    {
      ghost var from := Current();
      for i := 0 to |children|
        invariant Shape() && forall k :: 0 <= k < i ==> Foremost(children[k], ToFirst, from)
      {
        children[i].SeekToFirst();
      }
      FindSmallest(ToFirst, from);
    }

    method SeekToLast()
      requires Ok()
      modifies this, children
      ensures Ok() && Lands(Union(children), ToLast, old(Current()), Current())
    {
      ghost var from := Current();
      for i := 0 to |children|
        invariant Shape() && forall k :: 0 <= k < i ==> Hindmost(children[k], ToLast, from)
      {
        children[i].SeekToLast();
      }
      FindLargest(ToLast, from);
    }

    method Seek(target: InternalKey)
      requires Ok()
      modifies this, children
      ensures Ok() && Lands(Union(children), To(target), old(Current()), Current())
    {
      ghost var from := Current();
      for i := 0 to |children|
        invariant Shape() && forall k :: 0 <= k < i ==> Foremost(children[k], To(target), from)
      {
        children[i].Seek(target);
      }
      FindSmallest(To(target), from);
    }

    /** Turns around: the other children move behind the current entry. */
    method TurnForwards()
      requires Ok() && Valid()
      modifies this, children
      ensures Ok() && forwards && current == old(current) && Current() == old(Current())
    {
      ghost var from := Current();
      var c := current.value;
      var key := children[c].entries[children[c].pos].k;
      for i := 0 to |children|
        invariant Shape() && current == old(current) && Current() == from && children[c].Valid()
        invariant forall k :: 0 <= k < i && k != c ==> Foremost(children[k], Move.Next, from)
      {
        if i != c {
          PutBehind(children[i], key, from.value);
        }
      }
      forwards := true;
    }

    /** Turns around: the other children move before the current entry. */
    method TurnBackwards()
      requires Ok() && Valid()
      modifies this, children
      ensures Ok() && !forwards && current == old(current) && Current() == old(Current())
    {
      ghost var from := Current();
      var c := current.value;
      var key := children[c].entries[children[c].pos].k;
      for i := 0 to |children|
        invariant Shape() && current == old(current) && Current() == from && children[c].Valid()
        invariant forall k :: 0 <= k < i && k != c ==> Hindmost(children[k], Move.Prev, from)
      {
        if i != c {
          PutBefore(children[i], key, from.value);
        }
      }
      forwards := false;
    }

    method Next()
      requires Ok() && Valid()
      modifies this, children
      ensures Ok() && Lands(Union(children), Move.Next, old(Current()), Current())
    {
      ghost var from := Current();
      if !forwards {
        TurnForwards();
      }
      children[current.value].Next();
      FindSmallest(Move.Next, from);
    }

    method Prev()
      requires Ok() && Valid()
      modifies this, children
      ensures Ok() && Lands(Union(children), Move.Prev, old(Current()), Current())
    {
      ghost var from := Current();
      if forwards {
        TurnBackwards();
      }
      children[current.value].Prev();
      FindLargest(Move.Prev, from);
    }
  }
}
