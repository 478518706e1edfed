/** Internal keys, entries and the meaning of a collection of entries.

    A user key is only ever compared, never inspected, by the engine.  Byte strings are
    countable, so whatever total order the user comparator imposes on them embeds in the
    rationals; user keys are therefore numbers of type `real`, and no proof uses more than
    that their order is total. */
module Entries {
  type UserKey = real

  datatype Option<+T> = None | Some(value: T)

  datatype Kind = Deletion | Value

  const MAX_SEQUENCE: nat := 0xFF_FFFF_FFFF_FFFF

  /** Eight bits are left free so that a kind can be packed beside a sequence number. */
  type SequenceNumber = n: nat | n <= MAX_SEQUENCE

  /** The kind that sorts first among equal sequence numbers, used when seeking. */
  const KIND_FOR_SEEK := Value

  datatype InternalKey = InternalKey(user: UserKey, seqno: SequenceNumber, kind: Kind) {
    /** Sequence number and kind packed in one number, the kind in the low eight bits. */
    function Tag(): nat { seqno * 256 + (if kind.Value? then 1 else 0) }
  }

  datatype Entry = Entry(k: InternalKey, value: string)

  /** Increasing user key, then decreasing tag. */
  predicate Lt(a: InternalKey, b: InternalKey) {
    a.user < b.user || (a.user == b.user && a.Tag() > b.Tag())
  }

  function Compare(a: InternalKey, b: InternalKey): (r: int)
    ensures r < 0 <==> Lt(a, b)
    ensures r > 0 <==> Lt(b, a)
    ensures r == 0 <==> a == b
  {
    if a.user < b.user then -1
    else if a.user > b.user then 1
    else if a.Tag() > b.Tag() then -1
    else if a.Tag() < b.Tag() then 1
    else 0
  }

  ghost predicate Sorted(s: seq<Entry>) {
    forall i, j :: 0 <= i < j < |s| ==> Lt(s[i].k, s[j].k)
  }

  ghost predicate NoSharedKey(a: seq<Entry>, b: seq<Entry>) {
    forall e, o :: e in a && o in b ==> e.k != o.k
  }

  ghost function ToSet<T(!new)>(s: seq<T>): (r: set<T>)
    ensures forall x :: x in r <==> x in s
  {
    set x | x in s
  }

  // ----- What a collection of entries means to a reader -----

  /** Entries that a reader of key `u` at snapshot `s` may look at. */
  predicate Candidate(e: Entry, u: UserKey, s: SequenceNumber) {
    e.k.user == u && e.k.seqno <= s
  }

  ghost predicate IsNewest(entries: set<Entry>, u: UserKey, s: SequenceNumber, e: Entry) {
    && e in entries
    && Candidate(e, u, s)
    && forall o :: o in entries && Candidate(o, u, s) ==> o.k.seqno <= e.k.seqno
  }

  /** Sequence numbers are handed out once, so a user key never has two entries with the same one. */
  ghost predicate Distinct(entries: set<Entry>) {
    forall a, b :: a in entries && b in entries && a.k.user == b.k.user && a.k.seqno == b.k.seqno ==> a == b
  }

  function Payload(e: Entry): Option<string> {
    if e.k.kind.Value? then Some(e.value) else None
  }

  /** The specification of every read: the value of the newest entry for `u` that is not newer
      than `s`, and nothing if that entry is a deletion or there is none. */
  ghost function Visible(entries: set<Entry>, u: UserKey, s: SequenceNumber): Option<string> {
    if exists e :: IsNewest(entries, u, s, e) then
      var e :| IsNewest(entries, u, s, e);
      Payload(e)
    else
      None
  }

  lemma {:induction false} NewestExists(entries: set<Entry>, u: UserKey, s: SequenceNumber, c: Entry) returns (e: Entry)
    requires c in entries && Candidate(c, u, s)
    ensures IsNewest(entries, u, s, e)
    decreases entries
  {
    var rest := entries - {c};
    if o :| o in rest && Candidate(o, u, s) {
      e := NewestExists(rest, u, s, o);
      assert forall x :: x in entries ==> x == c || x in rest;
      if c.k.seqno > e.k.seqno {
        e := c;
      }
    } else {
      assert forall x :: x in entries ==> x == c || x in rest;
      e := c;
    }
  }

  lemma VisibleIs(entries: set<Entry>, u: UserKey, s: SequenceNumber, e: Entry)
    requires Distinct(entries) && IsNewest(entries, u, s, e)
    ensures Visible(entries, u, s) == Payload(e)
  {
  }

  lemma VisibleNone(entries: set<Entry>, u: UserKey, s: SequenceNumber)
    requires forall e :: e in entries ==> !Candidate(e, u, s)
    ensures Visible(entries, u, s) == None
  {
  }

  /** Two collections with the same candidates answer alike. */
  lemma VisibleAgree(a: set<Entry>, b: set<Entry>, u: UserKey, s: SequenceNumber)
    requires Distinct(a) && Distinct(b)
    requires forall e :: Candidate(e, u, s) ==> (e in a <==> e in b)
    ensures Visible(a, u, s) == Visible(b, u, s)
  {
    if c :| c in a && Candidate(c, u, s) {
      var e := NewestExists(a, u, s, c);
      VisibleIs(a, u, s, e);
      VisibleIs(b, u, s, e);
    } else {
      VisibleNone(a, u, s);
      VisibleNone(b, u, s);
    }
  }

  // ----- Looking one key up in a sorted run -----

  /** What a memtable or a table file says about a key. */
  datatype Lookup = Missing | Deleted | Found(value: string)

  function ToLookup(e: Entry): Lookup {
    if e.k.kind.Value? then Found(e.value) else Deleted
  }

  function Answer(l: Lookup): Option<string> {
    if l.Found? then Some(l.value) else None
  }

  /** The key that sorts before exactly the entries of `u` that are not newer than `s` and
      everything behind them. */
  function SeekKey(u: UserKey, s: SequenceNumber): InternalKey {
    InternalKey(u, s, KIND_FOR_SEEK)
  }

  lemma SeekKeySplits(e: Entry, u: UserKey, s: SequenceNumber)
    ensures e.k.user == u ==> (Lt(e.k, SeekKey(u, s)) <==> e.k.seqno > s)
  {
  }

  /** A run says `Missing` exactly when it holds no candidate; otherwise it reports the newest. */
  ghost predicate Reports(entries: set<Entry>, u: UserKey, s: SequenceNumber, l: Lookup) {
    if l.Missing? then forall e :: e in entries ==> !Candidate(e, u, s)
    else exists e :: IsNewest(entries, u, s, e) && l == ToLookup(e)
  }

  /** Position the run at the first entry not before the seek key, then check its user key. */
  method Find(run: seq<Entry>, u: UserKey, s: SequenceNumber) returns (l: Lookup)
    requires Sorted(run)
    ensures Reports(ToSet(run), u, s, l)
  {
    var target := SeekKey(u, s);
    var lo, hi := 0, |run|;
    while lo < hi
      invariant 0 <= lo <= hi <= |run|
      invariant forall i :: 0 <= i < lo ==> Lt(run[i].k, target)
      invariant forall i :: hi <= i < |run| ==> !Lt(run[i].k, target)
    {
      var mid := (lo + hi) / 2;
      if Lt(run[mid].k, target) {
        lo := mid + 1;
      } else {
        hi := mid;
      }
    }
    if lo < |run| && run[lo].k.user == u {
      l := ToLookup(run[lo]);
      assert IsNewest(ToSet(run), u, s, run[lo]);
    } else {
      l := Missing;
    }
  }
}
