/** What the readers of batches and version edits accept: exactly the bytes that a grammar allows.  The
    grammar says what numbers, strings, updates and items look like and does not mention any reader. */
module Grammars {
  import opened Entries
  import opened Coding
  import opened Slices
  import W = WriteBatches
  import E = EditCodec

  // ----- Numbers -----

  /** Only the last byte has its high bit clear. */
  predicate Terminated(x: Bytes, max: nat) {
    1 <= |x| <= max && x[|x| - 1] < 128 && forall i :: 0 <= i < |x| - 1 ==> x[i] >= 128
  }

  /** Seven bits of each byte, the lowest first. */
  function VarintValue(x: Bytes): nat {
    if x == [] then 0 else x[0] as nat % 128 + 128 * VarintValue(x[1..])
  }

  predicate IsVarint32(x: Bytes, v: nat) {
    Terminated(x, 5) && v == VarintValue(x) % TWO_32
  }

  predicate IsVarint64(x: Bytes, v: nat) {
    Terminated(x, 10) && v == VarintValue(x) % TWO_64
  }

  lemma {:induction false} VarintRead(b: Bytes, max: nat)
    requires DecodeVarint(b, max).Some?
    ensures var (v, n) := DecodeVarint(b, max).value; Terminated(b[..n], max) && v == VarintValue(b[..n])
    decreases max
  {
    var n := DecodeVarint(b, max).value.1;
    if b[0] >= 128 {
      VarintRead(b[1..], max - 1);
      assert b[..n][1..] == b[1..][..n - 1];
    } else {
      assert b[..1][1..] == [];
    }
  }

  lemma {:induction false} VarintParses(x: Bytes, rest: Bytes, max: nat)
    requires Terminated(x, max)
    ensures DecodeVarint(x + rest, max) == Some((VarintValue(x), |x|))
    decreases max
  {
    assert (x + rest)[0] == x[0];
    if |x| > 1 {
      assert (x + rest)[1..] == x[1..] + rest;
      VarintParses(x[1..], rest, max - 1);
    } else {
      assert x[1..] == [];
    }
  }

  lemma Varint32Read(b: Bytes) returns (x: Bytes)
    requires GetVarint32(b).Some?
    ensures b == x + GetVarint32(b).value.rest && IsVarint32(x, GetVarint32(b).value.v)
  {
    VarintRead(b, 5);
    hide DecodeVarint, VarintValue;
    x := b[..DecodeVarint(b, 5).value.1];
  }

  lemma Varint32Parses(x: Bytes, v: nat, rest: Bytes)
    requires IsVarint32(x, v)
    ensures GetVarint32(x + rest) == Some(Taken(v, rest))
  {
    VarintParses(x, rest, 5);
    hide DecodeVarint, VarintValue;
    assert (x + rest)[|x|..] == rest;
  }

  lemma Varint64Read(b: Bytes) returns (x: Bytes)
    requires GetVarint64(b).Some?
    ensures b == x + GetVarint64(b).value.rest && IsVarint64(x, GetVarint64(b).value.v)
  {
    VarintRead(b, 10);
    hide DecodeVarint, VarintValue;
    x := b[..DecodeVarint(b, 10).value.1];
  }

  lemma Varint64Parses(x: Bytes, v: nat, rest: Bytes)
    requires IsVarint64(x, v)
    ensures GetVarint64(x + rest) == Some(Taken(v, rest))
  {
    VarintParses(x, rest, 10);
    hide DecodeVarint, VarintValue;
    assert (x + rest)[|x|..] == rest;
  }

  // ----- Strings -----

  /** A length and that many bytes. */
  ghost predicate IsString(x: Bytes, s: Bytes) {
    exists n :: IsVarint32(n, |s|) && x == n + s
  }

  lemma StringRead(b: Bytes) returns (x: Bytes)
    requires GetString(b).Some?
    ensures b == x + GetString(b).value.rest && IsString(x, GetString(b).value.v)
  {
    hide GetVarint32, IsVarint32;
    var n := Varint32Read(b);
    var t := GetString(b).value;
    assert GetVarint32(b).value.rest == t.v + t.rest;
    x := n + t.v;
    Assoc(n, t.v, t.rest);
  }

  lemma StringParses(x: Bytes, s: Bytes, rest: Bytes)
    requires IsString(x, s)
    ensures GetString(x + rest) == Some(Taken(s, rest))
  {
    var n :| IsVarint32(n, |s|) && x == n + s;
    hide GetVarint32, IsVarint32;
    Assoc(n, s, rest);
    Varint32Parses(n, |s|, s + rest);
    assert (s + rest)[..|s|] == s && (s + rest)[|s|..] == rest;
  }

  // ----- Batches -----

  /** An update: its kind, its key and, for a value, the value. */
  ghost predicate IsOp(x: Bytes, o: W.Op) {
    match o
    case Put(key, value) => exists y, z :: IsString(y, key) && IsString(z, value) && x == [W.TYPE_VALUE] + (y + z)
    case Delete(key) => exists y :: IsString(y, key) && x == [W.TYPE_DELETION] + y
  }

  lemma OpRead(b: Bytes) returns (x: Bytes)
    requires b != [] && W.GetOp(b).Some?
    ensures b == x + W.GetOp(b).value.rest && x != [] && IsOp(x, W.GetOp(b).value.v)
  {
    hide GetString, IsString;
    var t := W.GetOp(b).value;
    var y := StringRead(b[1..]);
    assert b == [b[0]] + b[1..];
    if t.v.Put? {
      var z := StringRead(GetString(b[1..]).value.rest);
      Assoc(y, z, t.rest);
      Assoc([b[0]], y + z, t.rest);
      x := [b[0]] + (y + z);
    } else {
      Assoc([b[0]], y, t.rest);
      x := [b[0]] + y;
    }
  }

  lemma OpParses(x: Bytes, o: W.Op, rest: Bytes)
    requires IsOp(x, o)
    ensures x != [] && W.GetOp(x + rest) == Some(Taken(o, rest))
  {
    hide GetString, IsString;
    match o
    case Put(key, value) =>
      var y, z :| IsString(y, key) && IsString(z, value) && x == [W.TYPE_VALUE] + (y + z);
      StringParses(y, key, z + rest);
      StringParses(z, value, rest);
      assert (x + rest)[1..] == y + (z + rest);
    case Delete(key) =>
      var y :| IsString(y, key) && x == [W.TYPE_DELETION] + y;
      StringParses(y, key, rest);
      assert (x + rest)[1..] == y + rest;
  }

  ghost predicate AreOps(x: Bytes, ops: seq<W.Op>)
    decreases |ops|
  {
    if ops == [] then x == []
    else exists y, z :: IsOp(y, ops[0]) && AreOps(z, ops[1..]) && x == y + z
  }

  lemma {:induction false} OpsRead(b: Bytes)
    requires W.ReadOps(b).1
    ensures AreOps(b, W.ReadOps(b).0)
    decreases |b|
  {
    hide W.GetOp, IsOp;
    if b != [] {
      var y := OpRead(b);
      var t := W.GetOp(b).value;
      var ops := W.ReadOps(b).0;
      OpsRead(t.rest);
      assert ops[1..] == W.ReadOps(t.rest).0;
    }
  }

  lemma {:induction false} OpsParse(x: Bytes, ops: seq<W.Op>)
    requires AreOps(x, ops)
    ensures W.ReadOps(x) == (ops, true)
    decreases |ops|
  {
    if ops != [] {
      var first, more := ops[0], ops[1..];
      var y, z :| IsOp(y, first) && AreOps(z, more) && x == y + z;
      assert ops == [first] + more;
      hide *;
      OpParses(y, first, z);
      OpsParse(z, more);
      W.ReadOne(x, first, z);
    }
  }

  /** A batch is found in order if and only if its header is followed by as many updates as it says and
      nothing else, and then these are the updates handed over. */
  lemma BatchAccepted(rep: Bytes, ops: seq<W.Op>)
    ensures W.Iterated(rep) == (ops, true) <==>
            |rep| >= W.HEADER && AreOps(rep[W.HEADER..], ops) && |ops| == DecodeFixed32(rep[8..])
  {
    hide W.ReadOps, AreOps, DecodeFixed32;
    if |rep| >= W.HEADER && AreOps(rep[W.HEADER..], ops) {
      OpsParse(rep[W.HEADER..], ops);
    } else if |rep| >= W.HEADER && W.ReadOps(rep[W.HEADER..]).1 {
      OpsRead(rep[W.HEADER..]);
    }
  }

  // ----- Version edits -----

  ghost predicate IsPair(x: Bytes, s: Bytes, t: Bytes) {
    exists y, z :: IsString(y, s) && IsString(z, t) && x == y + z
  }

  ghost predicate IsNumbers(x: Bytes, m: nat, n: nat) {
    exists y, z :: IsVarint64(y, m) && IsVarint64(z, n) && x == y + z
  }

  /** Number, size and bounds of a table file. */
  ghost predicate IsFile(x: Bytes, f: E.FileMeta) {
    exists y, z :: IsNumbers(y, f.number, f.size) && IsPair(z, f.smallest, f.largest) && x == y + z
  }

  ghost predicate IsLevel(x: Bytes, level: nat) {
    IsVarint32(x, level) && level < 7
  }

  /** What follows the tag of an item. */
  ghost predicate IsPayload(x: Bytes, i: E.Item) {
    match i
    case Comparator(name) => IsString(x, name)
    case CompactPointer(level, key) => exists y, z :: IsLevel(y, level) && IsString(z, key) && x == y + z
    case DeletedFile(level, number) => exists y, z :: IsLevel(y, level) && IsVarint64(z, number) && x == y + z
    case NewFile(level, f) => exists y, z :: IsLevel(y, level) && IsFile(z, f) && x == y + z
    case _ => IsVarint64(x, i.n)
  }

  ghost predicate IsItem(x: Bytes, i: E.Item) {
    exists y, z :: IsVarint32(y, E.Tag(i)) && IsPayload(z, i) && x == y + z
  }

  ghost predicate AreItems(x: Bytes, items: seq<E.Item>)
    decreases |items|
  {
    if items == [] then x == []
    else exists y, z :: IsItem(y, items[0]) && AreItems(z, items[1..]) && x == y + z
  }

  lemma FileRead(b: Bytes) returns (x: Bytes)
    requires E.GetFile(b).Some?
    ensures b == x + E.GetFile(b).value.rest && IsFile(x, E.GetFile(b).value.v)
  {
    hide GetVarint64, GetString, IsVarint64, IsString;
    var number := GetVarint64(b).value;
    var size := GetVarint64(number.rest).value;
    var smallest := GetString(size.rest).value;
    var largest := GetString(smallest.rest).value;
    var p := Varint64Read(b);
    var q := Varint64Read(number.rest);
    var r := StringRead(size.rest);
    var s := StringRead(smallest.rest);
    assert IsNumbers(p + q, number.v, size.v) && IsPair(r + s, smallest.v, largest.v);
    hide IsNumbers, IsPair;
    x := (p + q) + (r + s);
    FourParts(p, q, r, s, largest.rest);
  }

  lemma FourParts(p: Bytes, q: Bytes, r: Bytes, s: Bytes, rest: Bytes)
    ensures (p + q) + (r + s) + rest == p + (q + (r + (s + rest)))
  {
  }

  lemma FileParses(x: Bytes, f: E.FileMeta, rest: Bytes)
    requires IsFile(x, f)
    ensures E.GetFile(x + rest) == Some(Taken(f, rest))
  {
    var y, z :| IsNumbers(y, f.number, f.size) && IsPair(z, f.smallest, f.largest) && x == y + z;
    var p, q :| IsVarint64(p, f.number) && IsVarint64(q, f.size) && y == p + q;
    var r, s :| IsString(r, f.smallest) && IsString(s, f.largest) && z == r + s;
    hide GetVarint64, GetString, IsVarint64, IsString, IsNumbers, IsPair, IsFile;
    FourParts(p, q, r, s, rest);
    Varint64Parses(p, f.number, q + (r + (s + rest)));
    Varint64Parses(q, f.size, r + (s + rest));
    StringParses(r, f.smallest, s + rest);
    StringParses(s, f.largest, rest);
  }

  lemma LevelRead(b: Bytes) returns (x: Bytes)
    requires E.GetLevel(b).Some?
    ensures b == x + E.GetLevel(b).value.rest && IsLevel(x, E.GetLevel(b).value.v)
  {
    x := Varint32Read(b);
    hide GetVarint32, IsVarint32;
  }

  lemma LevelParses(x: Bytes, level: nat, rest: Bytes)
    requires IsLevel(x, level)
    ensures E.GetLevel(x + rest) == Some(Taken(level, rest))
  {
    Varint32Parses(x, level, rest);
    hide GetVarint32, IsVarint32;
  }

  lemma PayloadRead(tag: nat, b: Bytes) returns (x: Bytes)
    requires E.GetItem(tag, b).Some?
    ensures var t := E.GetItem(tag, b).value;
            b == x + t.rest && E.Tag(t.v) == tag && IsPayload(x, t.v)
  {
    hide GetVarint64, GetString, E.GetFile, E.GetLevel, IsVarint64, IsString, IsFile, IsLevel;
    var t := E.GetItem(tag, b).value;
    if t.v.Comparator? {
      x := StringRead(b);
    } else if t.v.CompactPointer? {
      var y := LevelRead(b);
      var z := StringRead(E.GetLevel(b).value.rest);
      Assoc(y, z, t.rest);
      x := y + z;
    } else if t.v.DeletedFile? {
      var y := LevelRead(b);
      var z := Varint64Read(E.GetLevel(b).value.rest);
      Assoc(y, z, t.rest);
      x := y + z;
    } else if t.v.NewFile? {
      var y := LevelRead(b);
      var z := FileRead(E.GetLevel(b).value.rest);
      Assoc(y, z, t.rest);
      x := y + z;
    } else {
      x := Varint64Read(b);
    }
  }

  lemma PayloadParses(x: Bytes, i: E.Item, rest: Bytes)
    requires IsPayload(x, i)
    ensures E.GetItem(E.Tag(i), x + rest) == Some(Taken(i, rest))
  {
    hide GetVarint64, GetString, E.GetFile, E.GetLevel, IsVarint64, IsString, IsFile, IsLevel;
    match i
    case Comparator(name) => StringParses(x, name, rest);
    case CompactPointer(level, key) =>
      var y, z :| IsLevel(y, level) && IsString(z, key) && x == y + z;
      Assoc(y, z, rest);
      LevelParses(y, level, z + rest);
      StringParses(z, key, rest);
    case DeletedFile(level, number) =>
      var y, z :| IsLevel(y, level) && IsVarint64(z, number) && x == y + z;
      Assoc(y, z, rest);
      LevelParses(y, level, z + rest);
      Varint64Parses(z, number, rest);
    case NewFile(level, f) =>
      var y, z :| IsLevel(y, level) && IsFile(z, f) && x == y + z;
      Assoc(y, z, rest);
      LevelParses(y, level, z + rest);
      FileParses(z, f, rest);
    case _ => Varint64Parses(x, i.n, rest);
  }

  /** One step of the decoder: a tag and what follows it. */
  lemma ItemRead(b: Bytes) returns (x: Bytes)
    requires GetVarint32(b).Some? && E.GetItem(GetVarint32(b).value.v, GetVarint32(b).value.rest).Some?
    ensures var t := E.GetItem(GetVarint32(b).value.v, GetVarint32(b).value.rest).value;
            b == x + t.rest && IsItem(x, t.v)
  {
    hide GetVarint32, E.GetItem, IsVarint32, IsPayload, E.Tag;
    var tag := GetVarint32(b).value;
    var y := Varint32Read(b);
    var z := PayloadRead(tag.v, tag.rest);
    Assoc(y, z, E.GetItem(tag.v, tag.rest).value.rest);
    x := y + z;
  }

  lemma ItemParses(x: Bytes, i: E.Item, rest: Bytes)
    requires IsItem(x, i)
    ensures GetVarint32(x + rest).Some? && GetVarint32(x + rest).value.v == E.Tag(i)
    ensures E.GetItem(E.Tag(i), GetVarint32(x + rest).value.rest) == Some(Taken(i, rest))
  {
    var y, z :| IsVarint32(y, E.Tag(i)) && IsPayload(z, i) && x == y + z;
    hide *;
    Assoc(y, z, rest);
    Varint32Parses(y, E.Tag(i), z + rest);
    PayloadParses(z, i, rest);
  }

  lemma {:induction false} ItemsRead(b: Bytes, e: E.Edit) returns (items: seq<E.Item>)
    requires E.DecodeItems(b, e).Some?
    ensures AreItems(b, items) && E.DecodeItems(b, e) == Some(E.ApplyAll(e, items))
    decreases |b|
  {
    hide GetVarint32, E.GetItem, IsItem, E.Apply;
    match GetVarint32(b)
    case None =>
      items := [];
    case Some(tag) =>
      var x := ItemRead(b);
      var t := E.GetItem(tag.v, tag.rest).value;
      var more := ItemsRead(t.rest, E.Apply(e, t.v));
      items := [t.v] + more;
      assert items[1..] == more;
  }

  lemma DecodeOne(b: Bytes, i: E.Item, rest: Bytes, e: E.Edit)
    requires GetVarint32(b).Some? && E.GetItem(GetVarint32(b).value.v, GetVarint32(b).value.rest) == Some(Taken(i, rest))
    ensures |rest| < |b| && E.DecodeItems(b, e) == E.DecodeItems(rest, E.Apply(e, i))
  {
    hide GetVarint32, E.GetItem, E.Apply;
  }

  lemma {:induction false} ItemsParse(x: Bytes, items: seq<E.Item>, e: E.Edit)
    requires AreItems(x, items)
    ensures E.DecodeItems(x, e) == Some(E.ApplyAll(e, items))
    decreases |items|
  {
    if items == [] {
      NothingThere(e);
    } else {
      var y, z :| IsItem(y, items[0]) && AreItems(z, items[1..]) && x == y + z;
      assert E.ApplyAll(e, items) == E.ApplyAll(E.Apply(e, items[0]), items[1..]);
      hide *;
      ItemParses(y, items[0], z);
      DecodeOne(x, items[0], z, e);
      ItemsParse(z, items[1..], E.Apply(e, items[0]));
    }
  }

  lemma NothingThere(e: E.Edit)
    ensures E.DecodeItems([], e) == Some(e)
  {
    assert GetVarint32([]) == None;
  }

  /** A version edit is decoded if and only if its bytes are items one after the other, and then these are
      the items applied.  Unknown tags, levels that do not exist and tails that are no item are errors. */
  lemma EditAccepted(b: Bytes, e: E.Edit, r: E.Edit)
    ensures E.DecodeItems(b, e) == Some(r) <==> exists items :: AreItems(b, items) && r == E.ApplyAll(e, items)
  {
    hide E.DecodeItems, AreItems, E.ApplyAll;
    if E.DecodeItems(b, e).Some? {
      var _ := ItemsRead(b, e);
    }
    forall items | AreItems(b, items) ensures E.DecodeItems(b, e) == Some(E.ApplyAll(e, items)) {
      ItemsParse(b, items, e);
    }
  }
}
