/** The user's iterator: a cursor over what is visible at one snapshot, made from a cursor over all
    entries. */
module DBIterator {
  import opened Entries
  import opened Cursors

  /** The entries that carry the visible values. */
  ghost function Shown(entries: set<Entry>, s: SequenceNumber): set<Entry> {
    set e | e in entries && e.k.kind.Value? && IsNewest(entries, e.k.user, s, e)
  }

  /** There is one for each visible key, and it holds the visible value. */
  lemma ShownIsVisible(entries: set<Entry>, s: SequenceNumber, u: UserKey, v: string)
    requires Distinct(entries)
    ensures Visible(entries, u, s) == Some(v) <==> exists e :: e in Shown(entries, s) && e.k.user == u && e.value == v
  {
    if Visible(entries, u, s) == Some(v) {
      var e :| IsNewest(entries, u, s, e);
      VisibleIs(entries, u, s, e);
      assert e in Shown(entries, s);
    }
    if e :| e in Shown(entries, s) && e.k.user == u && e.value == v {
      VisibleIs(entries, u, s, e);
    }
  }

  lemma OneShownPerKey(entries: set<Entry>, s: SequenceNumber, a: Entry, b: Entry)
    requires Distinct(entries) && a in Shown(entries, s) && b in Shown(entries, s) && a.k.user == b.k.user
    ensures a == b
  {
  }

  // ----- The same by position in the sorted run -----

  /** The first entry of its key that the snapshot may see, and a value. */
  ghost predicate ShownAt(run: seq<Entry>, s: SequenceNumber, i: int) {
    && 0 <= i < |run| && run[i].k.seqno <= s && run[i].k.kind.Value?
    && forall j :: 0 <= j < i && run[j].k.user == run[i].k.user ==> run[j].k.seqno > s
  }

  lemma ShownAtIsShown(run: seq<Entry>, s: SequenceNumber, i: nat)
    requires Sorted(run) && Distinct(ToSet(run)) && i < |run|
    ensures ShownAt(run, s, i) <==> run[i] in Shown(ToSet(run), s)
  {
    if ShownAt(run, s, i) {
      forall o | o in run && Candidate(o, run[i].k.user, s) ensures o.k.seqno <= run[i].k.seqno {
        var j :| 0 <= j < |run| && run[j] == o;
        assert i <= j;
        assert i < j ==> Lt(run[i].k, run[j].k);
      }
    }
    if run[i] in Shown(ToSet(run), s) {
      forall j | 0 <= j < i && run[j].k.user == run[i].k.user ensures run[j].k.seqno > s {
        assert Lt(run[j].k, run[i].k);
      }
    }
  }

  /** From positions to entries: nothing shown lies between. */
  lemma LandsAtLeast(run: seq<Entry>, s: SequenceNumber, move: Move, from: Option<Entry>, i: int, lo: int)
    requires Sorted(run) && Distinct(ToSet(run))
    requires !move.ToLast? && !move.Prev?
    requires forall j :: 0 <= j < |run| && ShownAt(run, s, j) ==> (lo <= j <==> InReach(run[j], move, from))
    requires i == |run| || ShownAt(run, s, i)
    requires lo <= i && forall j :: lo <= j < i ==> !ShownAt(run, s, j)
    ensures Lands(Shown(ToSet(run), s), move, from, if i < |run| then Some(run[i]) else None)
  {
    if i < |run| {
      ShownAtIsShown(run, s, i);
    }
    forall x | x in Shown(ToSet(run), s) && InReach(x, move, from) ensures i < |run| && (x != run[i] ==> Lt(run[i].k, x.k)) {
      var j :| 0 <= j < |run| && run[j] == x;
      ShownAtIsShown(run, s, j);
    }
  }

  lemma LandsAtMost(run: seq<Entry>, s: SequenceNumber, move: Move, from: Option<Entry>, i: int, hi: int)
    requires Sorted(run) && Distinct(ToSet(run))
    requires move.ToLast? || move.Prev?
    requires forall j :: 0 <= j < |run| && ShownAt(run, s, j) ==> (j <= hi <==> InReach(run[j], move, from))
    requires -1 <= i <= hi && (i == -1 || ShownAt(run, s, i))
    requires forall j :: i < j <= hi ==> !ShownAt(run, s, j)
    ensures Lands(Shown(ToSet(run), s), move, from, if 0 <= i then Some(run[i]) else None)
  {
    if 0 <= i {
      ShownAtIsShown(run, s, i);
    }
    forall x | x in Shown(ToSet(run), s) && InReach(x, move, from) ensures 0 <= i && (x != run[i] ==> Lt(x.k, run[i].k)) {
      var j :| 0 <= j < |run| && run[j] == x;
      ShownAtIsShown(run, s, j);
    }
  }

  // ----- Scanning forwards -----

  /** Between `lo` and `hi` nothing is shown but keys to be skipped. */
  ghost predicate NoneShown(es: seq<Entry>, s: SequenceNumber, lo: int, hi: int, skipping: bool, first: Option<UserKey>) {
    forall i :: lo <= i < hi && ShownAt(es, s, i) ==> skipping && first.Some? && es[i].k.user <= first.value
  }

  /** State of the scan from `start` at position `p`: keys up to `skip` are being hidden, and only
      rightly so. */
  ghost predicate Scanning(es: seq<Entry>, s: SequenceNumber, start: nat, p: nat, hiding: bool, skip: Option<UserKey>,
                           skipping: bool, first: Option<UserKey>) {
    && start <= p && (hiding ==> skip.Some?)
    && (skipping ==> hiding && first.Some? && first.value <= skip.value)
    && (skipping ==> forall i :: p <= i < |es| && es[i].k.seqno <= s ==> first.value <= es[i].k.user)
    && (forall i, j :: 0 <= j < p <= i < |es| && es[j].k.user == es[i].k.user && es[j].k.seqno <= s ==>
            hiding && es[i].k.user <= skip.value)
    && (hiding ==> forall i :: p <= i < |es| && es[i].k.user <= skip.value && ShownAt(es, s, i) ==>
                       skipping && es[i].k.user <= first.value)
    && NoneShown(es, s, start, p, skipping, first)
  }

  /** The scan from `start` ends on `to`, or runs out of entries. */
  ghost predicate FoundNext(es: seq<Entry>, s: SequenceNumber, start: nat, to: nat, skipping: bool, first: Option<UserKey>) {
    && start <= to && NoneShown(es, s, start, to, skipping, first)
    && (to < |es| && skipping ==> first.Some? && es[to].k.user > first.value)
  }

  lemma ScanStops(es: seq<Entry>, s: SequenceNumber, start: nat, p: nat, hiding: bool, skip: Option<UserKey>,
                  skipping: bool, first: Option<UserKey>)
    requires Sorted(es) && p < |es| && Scanning(es, s, start, p, hiding, skip, skipping, first)
    requires es[p].k.seqno <= s && es[p].k.kind.Value? && !(hiding && es[p].k.user <= skip.value)
    ensures ShownAt(es, s, p) && FoundNext(es, s, start, p, skipping, first)
  {
  }

  lemma ScanPastDeletion(es: seq<Entry>, s: SequenceNumber, start: nat, p: nat, hiding: bool, skip: Option<UserKey>,
                         skipping: bool, first: Option<UserKey>)
    requires Sorted(es) && p < |es| && Scanning(es, s, start, p, hiding, skip, skipping, first)
    requires es[p].k.seqno <= s && es[p].k.kind.Deletion?
    ensures Scanning(es, s, start, p + 1, true, Some(es[p].k.user), skipping, first)
  {
    forall i | p < i < |es| ensures es[p].k.user <= es[i].k.user {
      assert Lt(es[p].k, es[i].k);
    }
  }

  lemma ScanPastHidden(es: seq<Entry>, s: SequenceNumber, start: nat, p: nat, hiding: bool, skip: Option<UserKey>,
                       skipping: bool, first: Option<UserKey>)
    requires Sorted(es) && p < |es| && Scanning(es, s, start, p, hiding, skip, skipping, first)
    requires es[p].k.seqno > s || (es[p].k.kind.Value? && hiding && es[p].k.user <= skip.value)
    ensures Scanning(es, s, start, p + 1, hiding, skip, skipping, first)
  {
    if es[p].k.seqno > s {
      assert !ShownAt(es, s, p);
    }
  }

  lemma ScanEnds(es: seq<Entry>, s: SequenceNumber, start: nat, p: nat, hiding: bool, skip: Option<UserKey>,
                 skipping: bool, first: Option<UserKey>)
    requires p == |es| && Scanning(es, s, start, p, hiding, skip, skipping, first)
    ensures FoundNext(es, s, start, p, skipping, first)
  {
  }

  /** A scan may start at or before the entry to be skipped, as long as only entries too new to be
      seen lie in between. */
  lemma BeginSkipping(es: seq<Entry>, s: SequenceNumber, p: nat, at: nat)
    requires Sorted(es) && ShownAt(es, s, at) && p <= at
    requires forall j :: p <= j < at ==> es[j].k.seqno > s
    requires 0 < p < at ==> es[p - 1].k.user < es[at].k.user
    ensures var u := Some(es[at].k.user); Scanning(es, s, p, p, true, u, true, u)
  {
    forall i | at <= i < |es| ensures es[at].k.user <= es[i].k.user {
      assert at < i ==> Lt(es[at].k, es[i].k);
    }
    forall i, j | 0 <= j < p <= i < |es| && es[j].k.user == es[i].k.user ensures es[i].k.user <= es[at].k.user {
      if 0 < p < at {
        assert j < p - 1 ==> Lt(es[j].k, es[p - 1].k);
      } else {
        assert j < at ==> Lt(es[j].k, es[at].k);
      }
    }
  }

  /** What is found past the current key is the next shown entry. */
  lemma NextLands(es: seq<Entry>, s: SequenceNumber, at: nat, start: nat, to: nat)
    requires Sorted(es) && Distinct(ToSet(es)) && ShownAt(es, s, at) && start <= at && to <= |es|
    requires to < |es| ==> ShownAt(es, s, to)
    requires FoundNext(es, s, start, to, true, Some(es[at].k.user))
    ensures Lands(Shown(ToSet(es), s), Next, Some(es[at]), if to < |es| then Some(es[to]) else None)
  {
    assert forall j :: 0 <= j < at ==> Lt(es[j].k, es[at].k);
    forall j | at < j < |es| && ShownAt(es, s, j) ensures es[j].k.user > es[at].k.user {
      assert Lt(es[at].k, es[j].k);
    }
    LandsAtLeast(es, s, Next, Some(es[at]), to, at + 1);
  }

  /** The seek key stands before all entries of its user key that may be seen. */
  lemma BeginSeeking(es: seq<Entry>, s: SequenceNumber, target: UserKey, p: nat)
    requires Sorted(es) && p <= |es|
    requires forall i :: 0 <= i < |es| ==> (i < p <==> Lt(es[i].k, SeekKey(target, s)))
    ensures Scanning(es, s, p, p, false, None, false, None)
    ensures p == |es| ==> FoundNext(es, s, p, p, false, None)
  {
    forall i, j | 0 <= j < p <= i < |es| && es[j].k.user == es[i].k.user ensures es[j].k.seqno > s {
      SeekKeySplits(es[j], target, s);
    }
  }

  lemma SeekLands(es: seq<Entry>, s: SequenceNumber, target: UserKey, from: Option<Entry>, p: nat, to: nat)
    requires Sorted(es) && Distinct(ToSet(es)) && p <= |es| && to <= |es|
    requires forall i :: 0 <= i < |es| ==> (i < p <==> Lt(es[i].k, SeekKey(target, s)))
    requires to < |es| ==> ShownAt(es, s, to)
    requires FoundNext(es, s, p, to, false, None)
    ensures Lands(Shown(ToSet(es), s), To(SeekKey(target, s)), from, if to < |es| then Some(es[to]) else None)
  {
    LandsAtLeast(es, s, To(SeekKey(target, s)), from, to, p);
  }

  // ----- Scanning backwards -----

  /** State of the backward scan from `start`, with everything behind `q` examined: `m` is the only
      entry that may turn out to be shown. */
  ghost predicate ScanningBack(es: seq<Entry>, s: SequenceNumber, start: int, q: int, kind: Kind, m: nat) {
    && -1 <= q <= start < |es|
    && (forall i :: q < i <= start && ShownAt(es, s, i) ==> kind.Value? && i == m)
    && (kind.Value? ==>
          && q < m <= start && es[m].k.seqno <= s && es[m].k.kind.Value?
          && forall j :: q < j < m ==> es[j].k.seqno > s)
  }

  lemma ScanBackStops(es: seq<Entry>, s: SequenceNumber, start: int, q: int, kind: Kind, m: nat)
    requires Sorted(es) && ScanningBack(es, s, start, q, kind, m) && kind.Value?
    requires 0 <= q ==> es[q].k.user < es[m].k.user
    ensures ShownAt(es, s, m)
  {
    forall j | 0 <= j < q ensures es[j].k.user < es[m].k.user {
      assert Lt(es[j].k, es[q].k);
    }
  }

  lemma ScanBackGoesOn(es: seq<Entry>, s: SequenceNumber, start: int, q: int, kind: Kind, m: nat)
    requires Sorted(es) && 0 <= q && ScanningBack(es, s, start, q, kind, m)
    requires !(es[q].k.seqno <= s && kind.Value? && es[q].k.user < es[m].k.user)
    ensures es[q].k.seqno <= s ==> ScanningBack(es, s, start, q - 1, es[q].k.kind, q)
    ensures es[q].k.seqno > s ==> ScanningBack(es, s, start, q - 1, kind, m)
  {
    if kind.Value? {
      assert Lt(es[q].k, es[m].k);
    }
  }

  /** The last shown entry before the current one. */
  lemma PrevLands(es: seq<Entry>, s: SequenceNumber, at: nat, to: int)
    requires Sorted(es) && Distinct(ToSet(es)) && ShownAt(es, s, at) && -1 <= to < at
    requires to == -1 || ShownAt(es, s, to)
    requires forall j :: to < j < at ==> !ShownAt(es, s, j)
    ensures Lands(Shown(ToSet(es), s), Prev, Some(es[at]), if 0 <= to then Some(es[to]) else None)
  {
    LandsAtMost(es, s, Prev, Some(es[at]), to, at - 1);
  }

  // ----- The iterator -----

  class DBIter {
    const iter: Cursor
    const sequence: SequenceNumber
    var savedKey: Option<UserKey>
    var savedValue: string
    var forwards: bool
    var valid: bool
    /** Position of the current entry. */
    ghost var at: nat

    /** Going forwards the inner cursor stands on the current entry.  Going backwards it stands before
        all entries of the current key, and only entries too new to be seen lie in between. */
    ghost predicate Ok()
      reads this, iter
    {
      && iter.Ok() && Distinct(ToSet(iter.entries))
      && (valid ==> ShownAt(iter.entries, sequence, at))
      && (valid && forwards ==> iter.pos == at)
      && (valid && !forwards ==>
            && savedKey == Some(iter.entries[at].k.user) && savedValue == iter.entries[at].value
            && (iter.Valid() ==> iter.pos < at && iter.entries[iter.pos].k.user < iter.entries[at].k.user)
            && forall j :: iter.Place() < j < at ==> iter.entries[j].k.seqno > sequence)
    }

    ghost function Current(): Option<Entry>
      requires Ok()
      reads this, iter
    {
      if valid then Some(iter.entries[at]) else None
    }

    /** What the user's cursor walks over. */
    ghost function Rows(): set<Entry>
      reads this, iter
    {
      Shown(ToSet(iter.entries), sequence)
    }

    function Key(): (u: UserKey)
      requires Ok() && valid
      reads this, iter
      ensures u == Current().value.k.user
    {
      if forwards then iter.entries[iter.pos].k.user else savedKey.value
    }

    function Value(): (v: string)
      requires Ok() && valid
      reads this, iter
      ensures v == Current().value.value
      ensures Visible(ToSet(iter.entries), Key(), sequence) == Some(v)
    {
      ShownAtIsShown(iter.entries, sequence, at);
      VisibleIs(ToSet(iter.entries), iter.entries[at].k.user, sequence, iter.entries[at]);
      if forwards then iter.entries[iter.pos].value else savedValue
    }

    constructor (inner: Cursor, s: SequenceNumber)
      requires inner.Ok() && Distinct(ToSet(inner.entries))
      ensures Ok() && !valid && iter == inner && sequence == s
    {
      iter, sequence := inner, s;
      savedKey, savedValue, forwards, valid := None, "", true, false;
      at := 0;
    }

    /** Look at the entry under the inner cursor: show it, or learn from it what to hide. */
    method Examine(hiding: bool, ghost start: nat, ghost skipping: bool, ghost first: Option<UserKey>)
      returns (found: bool, hiding': bool)
      requires iter.Ok() && iter.Valid() && (hiding ==> savedKey.Some?)
      requires Scanning(iter.entries, sequence, start, iter.pos, hiding, savedKey, skipping, first)
      modifies this`savedKey
      ensures found ==> ShownAt(iter.entries, sequence, iter.pos) && FoundNext(iter.entries, sequence, start, iter.pos, skipping, first)
      ensures !found ==> (hiding' ==> savedKey.Some?)
      ensures !found ==> Scanning(iter.entries, sequence, start, iter.pos + 1, hiding', savedKey, skipping, first)
    {
      hide Scanning, FoundNext, ShownAt;
      var e := iter.entries[iter.pos];
      found, hiding' := false, hiding;
      if e.k.seqno <= sequence && e.k.kind.Value? && !(hiding && e.k.user <= savedKey.value) {
        ScanStops(iter.entries, sequence, start, iter.pos, hiding, savedKey, skipping, first);
        found := true;
      } else {
        if e.k.seqno <= sequence && e.k.kind.Deletion? {
          ScanPastDeletion(iter.entries, sequence, start, iter.pos, hiding, savedKey, skipping, first);
          savedKey := Some(e.k.user);
          hiding' := true;
        } else {
          ScanPastHidden(iter.entries, sequence, start, iter.pos, hiding, savedKey, skipping, first);
        }
      }
    }

    /** Forward to the first shown entry, ignoring keys up to the saved one if `skipping`. */
    method FindNextUserEntry(skipping: bool)
      requires iter.Ok() && iter.Valid() && forwards && (skipping ==> savedKey.Some?)
      requires Scanning(iter.entries, sequence, iter.pos, iter.pos, skipping, savedKey, skipping, savedKey)
      modifies this, iter
      ensures iter.Ok() && forwards && at == iter.pos
      ensures valid ==> ShownAt(iter.entries, sequence, at)
      ensures FoundNext(iter.entries, sequence, old(iter.pos), if valid then at else |iter.entries|, skipping, old(savedKey))
    {
      hide Scanning, NoneShown, FoundNext, ShownAt;
      var hiding, found := skipping, false;
      ghost var es, start, first := iter.entries, iter.pos, savedKey;
      while !found && iter.Valid()
        invariant iter.Ok() && forwards && (found ==> iter.Valid())
        invariant !found ==> (hiding ==> savedKey.Some?)
        invariant !found ==> Scanning(es, sequence, start, iter.pos, hiding, savedKey, skipping, first)
        invariant found ==> ShownAt(es, sequence, iter.pos) && FoundNext(es, sequence, start, iter.pos, skipping, first)
        decreases !found, |es| - iter.pos
      {
        found, hiding := Examine(hiding, start, skipping, first);
        if !found {
          iter.Next();
        }
      }
      if !found {
        ScanEnds(es, sequence, start, iter.pos, hiding, savedKey, skipping, first);
      }
      savedKey := None;
      valid := found;
      at := iter.pos;
    }

    /** Turns around if need be; the saved key is then the one to skip past.  The current entry is
        still ahead, so the inner cursor cannot be at its end. */
    method TurnForwards()
      requires Ok() && valid
      modifies this, iter
      ensures iter.Ok() && iter.Valid() && forwards && at == old(at) && iter.pos <= at
      ensures savedKey == Some(iter.entries[at].k.user)
      ensures Scanning(iter.entries, sequence, iter.pos, iter.pos, true, savedKey, true, savedKey)
    {
      if !forwards {
        forwards := true;
        if !iter.Valid() {
          iter.SeekToFirst();
        } else {
          iter.Next();
        }
      } else {
        savedKey := Some(iter.entries[iter.pos].k.user);
      }
      BeginSkipping(iter.entries, sequence, iter.pos, at);
    }

    method Next()
      requires Ok() && valid
      modifies this, iter
      ensures Ok() && Lands(Rows(), Move.Next, old(Current()), Current())
    {
      hide Scanning, FoundNext;
      ghost var es, i := iter.entries, at;
      TurnForwards();
      ghost var start := iter.pos;
      FindNextUserEntry(true);
      NextLands(es, sequence, i, start, if valid then at else |es|);
    }

    /** Backward to the last shown entry that is not behind the inner cursor. */
    method FindPrevUserEntry()
      requires iter.Ok() && Distinct(ToSet(iter.entries)) && !forwards
      modifies this, iter
      ensures Ok()
      ensures valid ==> at <= old(iter.Place())
      ensures forall i :: (if valid then at else -1) < i <= old(iter.Place()) ==> !ShownAt(iter.entries, sequence, i)
    {
      hide ShownAt, Distinct, Sorted;
      var valueType := Deletion;
      ghost var es, start, m: nat := iter.entries, iter.Place(), 0;
      while iter.Valid()
        invariant iter.Ok() && !forwards
        invariant ScanningBack(es, sequence, start, iter.Place(), valueType, m)
        invariant valueType.Value? ==> savedKey == Some(es[m].k.user) && savedValue == es[m].value
        decreases iter.Place()
      {
        var e := iter.entries[iter.pos];
        if e.k.seqno <= sequence && valueType.Value? && e.k.user < savedKey.value {
          break;
        }
        ScanBackGoesOn(es, sequence, start, iter.pos, valueType, m);
        if e.k.seqno <= sequence {
          valueType := e.k.kind;
          m := iter.pos;
          if valueType.Deletion? {
            savedKey, savedValue := None, "";
          } else {
            savedKey, savedValue := Some(e.k.user), e.value;
          }
        }
        iter.Prev();
      }
      at := m;
      if valueType.Deletion? {
        valid := false;
        savedKey, savedValue := None, "";
        forwards := true;
      } else {
        ScanBackStops(es, sequence, start, iter.Place(), valueType, m);
        valid := true;
      }
    }

    /** Turns around if need be: the inner cursor backs out of the current key, or finds that nothing
        comes before it. */
    method TurnBackwards() returns (more: bool)
      requires Ok() && valid
      modifies this, iter
      ensures iter.Ok() && at == old(at) && iter.Place() < at && (more ==> !forwards) && (!more ==> !iter.Valid())
      ensures forall j :: iter.Place() < j < at ==> !ShownAt(iter.entries, sequence, j)
    {
      if !forwards {
        return true;
      }
      savedKey := Some(iter.entries[iter.pos].k.user);
      while true
        invariant iter.Ok() && iter.Valid() && iter.pos <= at == old(at) && forwards
        invariant savedKey == Some(iter.entries[at].k.user)
        invariant forall j :: iter.pos <= j < at ==> iter.entries[j].k.user == iter.entries[at].k.user
        decreases iter.pos
      {
        iter.Prev();
        if !iter.Valid() {
          return false;
        }
        if iter.entries[iter.pos].k.user < savedKey.value {
          break;
        }
      }
      forwards := false;
      more := true;
    }

    method Prev()
      requires Ok() && valid
      modifies this, iter
      ensures Ok() && Lands(Rows(), Move.Prev, old(Current()), Current())
    {
      ghost var es, i: int := iter.entries, at;
      var more := TurnBackwards();
      if more {
        FindPrevUserEntry();
      } else {
        valid := false;
        savedKey, savedValue := None, "";
      }
      PrevLands(es, sequence, i, if valid then at else -1);
    }

    method Seek(target: UserKey)
      requires Ok()
      modifies this, iter
      ensures Ok() && Lands(Rows(), To(SeekKey(target, sequence)), old(Current()), Current())
    {
      hide Scanning, FoundNext;
      ghost var es, from := iter.entries, Current();
      forwards := true;
      savedKey, savedValue := None, "";
      iter.Seek(SeekKey(target, sequence));
      ghost var lo := iter.pos;
      BeginSeeking(es, sequence, target, lo);
      if iter.Valid() {
        FindNextUserEntry(false);
      } else {
        valid := false;
      }
      SeekLands(es, sequence, target, from, lo, if valid then at else |es|);
    }

    method SeekToFirst()
      requires Ok()
      modifies this, iter
      ensures Ok() && Lands(Rows(), ToFirst, old(Current()), Current())
    {
      ghost var es, from := iter.entries, Current();
      forwards := true;
      savedValue := "";
      iter.SeekToFirst();
      if iter.Valid() {
        FindNextUserEntry(false);
      } else {
        valid := false;
      }
      LandsAtLeast(es, sequence, ToFirst, from, if valid then at else |es|, 0);
    }

    method SeekToLast()
      requires Ok()
      modifies this, iter
      ensures Ok() && Lands(Rows(), ToLast, old(Current()), Current())
    {
      ghost var es, from := iter.entries, Current();
      forwards := false;
      savedValue := "";
      iter.SeekToLast();
      FindPrevUserEntry();
      LandsAtMost(es, sequence, ToLast, from, if valid then at else -1, |es| - 1);
    }
  }

  /** For the user, seeking compares user keys only. */
  lemma SeekIsByUserKey(entries: set<Entry>, s: SequenceNumber, target: UserKey, e: Entry, from: Option<Entry>)
    requires e in Shown(entries, s)
    ensures InReach(e, To(SeekKey(target, s)), from) <==> target <= e.k.user
  {
  }
}
