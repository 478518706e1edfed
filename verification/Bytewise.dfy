/** Keys as byte strings: their order, and the shortened keys that separate blocks. */
module Bytewise {
  import opened Entries
  import opened Coding

  type Bytes = seq<Byte>

  /** Byte by byte; a proper prefix comes first. */
  predicate Less(a: Bytes, b: Bytes) {
    b != [] && (a == [] || a[0] < b[0] || (a[0] == b[0] && Less(a[1..], b[1..])))
  }

  lemma {:induction false} LessIrreflexive(a: Bytes)
    ensures !Less(a, a)
  {
    if a != [] {
      LessIrreflexive(a[1..]);
    }
  }

  lemma {:induction false} LessTransitive(a: Bytes, b: Bytes, c: Bytes)
    requires Less(a, b) && Less(b, c)
    ensures Less(a, c)
  {
    if a != [] && a[0] == b[0] && b[0] == c[0] {
      LessTransitive(a[1..], b[1..], c[1..]);
    }
  }

  lemma {:induction false} LessTotal(a: Bytes, b: Bytes)
    ensures Less(a, b) || a == b || Less(b, a)
  {
    if a != [] && b != [] && a[0] == b[0] {
      LessTotal(a[1..], b[1..]);
      assert a == [a[0]] + a[1..] && b == [b[0]] + b[1..];
    }
  }

  /** Where two strings first differ decides. */
  lemma {:induction false} LessAtDifference(a: Bytes, b: Bytes, i: nat)
    requires i < |a| && i < |b| && a[..i] == b[..i] && a[i] != b[i]
    ensures Less(a, b) <==> a[i] < b[i]
  {
    if i > 0 {
      assert a[0] == a[..i][0] == b[..i][0] == b[0];
      assert a[1..][..i - 1] == a[..i][1..] == b[..i][1..] == b[1..][..i - 1];
      LessAtDifference(a[1..], b[1..], i - 1);
    }
  }

  lemma {:induction false} PrefixIsLess(a: Bytes, b: Bytes)
    requires a <= b && a != b
    ensures Less(a, b)
  {
    if a != [] {
      assert a[1..] <= b[1..];
      assert a == [a[0]] + a[1..] && b == [b[0]] + b[1..];
      PrefixIsLess(a[1..], b[1..]);
    }
  }

  /** Cut behind the first byte in which the two differ, with that byte raised by one, if that leaves room
      below `limit`; otherwise `start` itself. */
  ghost predicate IsSeparator(start: Bytes, limit: Bytes, r: Bytes) {
    exists d :: 0 <= d <= |start| && d <= |limit| && start[..d] == limit[..d]
      && (d < |start| && d < |limit| ==> start[d] != limit[d])
      && if d < |start| && d < |limit| && start[d] as nat + 1 < limit[d] as nat && start[d] < 0xff then
           d < |r| && r[..d] == start[..d] && |r| == d + 1 && r[d] as nat == start[d] as nat + 1
         else r == start
  }

  /** Cut behind the first byte that can be raised by one, with that byte raised. */
  ghost predicate IsSuccessor(key: Bytes, r: Bytes) {
    exists i :: 0 <= i <= |key| && (forall j :: 0 <= j < i ==> key[j] == 0xff)
      && if i < |key| then key[i] != 0xff && |r| == i + 1 && r[..i] == key[..i] && r[i] as nat == key[i] as nat + 1
         else r == key
  }

  /** A short string at or after `start` and before `limit`. */
  method FindShortestSeparator(start: Bytes, limit: Bytes) returns (r: Bytes)
    ensures r == start || (Less(start, r) && Less(r, limit) && |r| <= |start|)
    ensures IsSeparator(start, limit, r)
  {
    var minLength := if |start| < |limit| then |start| else |limit|;
    var d := 0;
    while d < minLength && start[d] == limit[d]
      invariant d <= minLength && start[..d] == limit[..d]
    {
      d := d + 1;
    }
    r := start;
    if d < minLength {
      var byte: nat := start[d];
      if byte < 0xff && byte + 1 < limit[d] {
        r := start[..d] + [byte + 1];
        assert r[..d] == start[..d];
        LessAtDifference(start, r, d);
        LessAtDifference(r, limit, d);
      }
    }
  }

  /** A short string at or after `key`. */
  method FindShortSuccessor(key: Bytes) returns (r: Bytes)
    ensures r == key || (Less(key, r) && |r| <= |key|)
    ensures IsSuccessor(key, r)
  {
    var i := 0;
    while i < |key|
      invariant i <= |key| && forall j :: 0 <= j < i ==> key[j] == 0xff
    {
      var byte: nat := key[i];
      if byte != 0xff {
        r := key[..i] + [byte + 1];
        assert r[..i] == key[..i];
        LessAtDifference(key, r, i);
        return;
      }
      i := i + 1;
    }
    r := key;
    assert key[..i] == key;
  }

  // ----- Internal keys -----

  /** A user key and the packed sequence number and kind. */
  datatype TableKey = TableKey(user: Bytes, tag: nat)

  /** The tag of the greatest sequence number and the kind that sorts first. */
  const MAX_TAG: nat := MAX_SEQUENCE * 256 + 1

  predicate Before(a: TableKey, b: TableKey) {
    Less(a.user, b.user) || (a.user == b.user && a.tag > b.tag)
  }

  lemma BeforeTransitive(a: TableKey, b: TableKey, c: TableKey)
    requires Before(a, b) && Before(b, c)
    ensures Before(a, c)
  {
    if Less(a.user, b.user) && Less(b.user, c.user) {
      LessTransitive(a.user, b.user, c.user);
    }
  }

  lemma BeforeTotal(a: TableKey, b: TableKey)
    ensures Before(a, b) || a == b || Before(b, a)
    ensures !Before(a, a)
    ensures Before(a, b) ==> !Before(b, a)
  {
    LessTotal(a.user, b.user);
    LessIrreflexive(a.user);
    if Before(a, b) && Before(b, a) {
      BeforeTransitive(a, b, a);
    }
  }

  /** What may stand in an index for a block that ends with `last`: the key itself, or one with a
      greater user key and the greatest tag. */
  predicate Closes(last: TableKey, sep: TableKey) {
    sep == last || (Less(last.user, sep.user) && sep.tag == MAX_TAG)
  }

  /** The separator of the user keys with the tag that sorts first, if it is shorter. */
  ghost predicate IsInternalSeparator(start: TableKey, limit: TableKey, r: TableKey) {
    exists user :: IsSeparator(start.user, limit.user, user)
      && r == if |user| < |start.user| then TableKey(user, MAX_TAG) else start
  }

  ghost predicate IsInternalSuccessor(key: TableKey, r: TableKey) {
    exists user :: IsSuccessor(key.user, user) && r == if |user| < |key.user| then TableKey(user, MAX_TAG) else key
  }

  method FindShortestInternalSeparator(start: TableKey, limit: TableKey) returns (r: TableKey)
    requires Before(start, limit)
    ensures Closes(start, r) && Before(r, limit)
    ensures r != start ==> Less(r.user, limit.user)
    ensures IsInternalSeparator(start, limit, r)
  {
    var tmp := FindShortestSeparator(start.user, limit.user);
    r := start;
    if |tmp| < |start.user| {
      LessIrreflexive(start.user);
      assert tmp != start.user;
      if Less(start.user, tmp) {
        r := TableKey(tmp, MAX_TAG);
      }
    }
  }

  method FindShortInternalSuccessor(key: TableKey) returns (r: TableKey)
    ensures Closes(key, r)
    ensures IsInternalSuccessor(key, r)
  {
    var tmp := FindShortSuccessor(key.user);
    r := key;
    if |tmp| < |key.user| && Less(key.user, tmp) {
      r := TableKey(tmp, MAX_TAG);
    }
  }
}
