/** Version edits as bytes: the records of a manifest. */
module EditCodec {
  import opened Entries
  import opened Coding
  import opened Slices
  import opened Versions

  const COMPARATOR: nat := 1
  const LOG_NUMBER: nat := 2
  const NEXT_FILE_NUMBER: nat := 3
  const LAST_SEQUENCE: nat := 4
  const COMPACT_POINTER: nat := 5
  const DELETED_FILE: nat := 6
  const NEW_FILE: nat := 7
  const PREV_LOG_NUMBER: nat := 9

  datatype FileMeta = FileMeta(number: nat, size: nat, smallest: Bytes, largest: Bytes)

  datatype Edit = Edit(
    comparator: Option<Bytes>,
    logNumber: Option<nat>,
    prevLogNumber: Option<nat>,
    nextFile: Option<nat>,
    lastSequence: Option<nat>,
    pointers: seq<(nat, Bytes)>,
    deleted: set<(nat, nat)>,
    added: seq<(nat, FileMeta)>)

  /** What `Clear` leaves: everything but the compaction pointers is emptied. */
  function Cleared(e: Edit): Edit {
    Edit(None, None, None, None, None, e.pointers, {}, [])
  }

  // ----- One tagged item -----

  datatype Item =
    | Comparator(name: Bytes)
    | LogNumber(n: nat)
    | PrevLogNumber(n: nat)
    | NextFile(n: nat)
    | LastSequence(n: nat)
    | CompactPointer(level: nat, key: Bytes)
    | DeletedFile(level: nat, n: nat)
    | NewFile(level: nat, f: FileMeta)

  predicate GoodItem(i: Item) {
    match i
    case Comparator(name) => |name| < 0x1_0000_0000
    case CompactPointer(level, key) => level < NUM_LEVELS && |key| < 0x1_0000_0000
    case DeletedFile(level, n) => level < NUM_LEVELS && n < TWO_64
    case NewFile(level, f) =>
      level < NUM_LEVELS && f.number < TWO_64 && f.size < TWO_64 && |f.smallest| < 0x1_0000_0000 && |f.largest| < 0x1_0000_0000
    case _ => i.n < TWO_64
  }

  function Tag(i: Item): nat {
    match i
    case Comparator(_) => COMPARATOR
    case LogNumber(_) => LOG_NUMBER
    case PrevLogNumber(_) => PREV_LOG_NUMBER
    case NextFile(_) => NEXT_FILE_NUMBER
    case LastSequence(_) => LAST_SEQUENCE
    case CompactPointer(_, _) => COMPACT_POINTER
    case DeletedFile(_, _) => DELETED_FILE
    case NewFile(_, _) => NEW_FILE
  }

  /** The four tags that are followed by one 64-bit number. */
  predicate IsNumber(tag: nat) {
    tag in {LOG_NUMBER, PREV_LOG_NUMBER, NEXT_FILE_NUMBER, LAST_SEQUENCE}
  }

  function NumberItem(tag: nat, n: nat): (i: Item)
    requires IsNumber(tag)
  {
    if tag == LOG_NUMBER then LogNumber(n)
    else if tag == PREV_LOG_NUMBER then PrevLogNumber(n)
    else if tag == NEXT_FILE_NUMBER then NextFile(n)
    else LastSequence(n)
  }

  function FileBytes(f: FileMeta): Bytes {
    EncodeVarint(f.number) + (EncodeVarint(f.size) + (PutString(f.smallest) + PutString(f.largest)))
  }

  function Payload(i: Item): Bytes {
    match i
    case Comparator(name) => PutString(name)
    case CompactPointer(level, key) => EncodeVarint(level) + PutString(key)
    case DeletedFile(level, n) => EncodeVarint(level) + EncodeVarint(n)
    case NewFile(level, f) =>
      EncodeVarint(level) + FileBytes(f)
    case _ => EncodeVarint(i.n)
  }

  function ItemBytes(i: Item): Bytes {
    EncodeVarint(Tag(i)) + Payload(i)
  }

  function Apply(e: Edit, i: Item): Edit {
    match i
    case Comparator(name) => e.(comparator := Some(name))
    case LogNumber(n) => e.(logNumber := Some(n))
    case PrevLogNumber(n) => e.(prevLogNumber := Some(n))
    case NextFile(n) => e.(nextFile := Some(n))
    case LastSequence(n) => e.(lastSequence := Some(n))
    case CompactPointer(level, key) => e.(pointers := e.pointers + [(level, key)])
    case DeletedFile(level, n) => e.(deleted := e.deleted + {(level, n)})
    case NewFile(level, f) => e.(added := e.added + [(level, f)])
  }

  // ----- Taking parts off the input -----

  function GetLevel(b: Bytes): (r: Option<Taken<nat>>)
    ensures r.Some? ==> |r.value.rest| < |b|
  {
    match GetVarint32(b)
    case None => None
    case Some(t) => if t.v < NUM_LEVELS then Some(t) else None
  }

  function GetFile(b: Bytes): (r: Option<Taken<FileMeta>>)
    ensures r.Some? ==> |r.value.rest| < |b|
  {
    match GetVarint64(b)
    case None => None
    case Some(number) =>
      match GetVarint64(number.rest)
      case None => None
      case Some(size) =>
        match GetString(size.rest)
        case None => None
        case Some(smallest) =>
          match GetString(smallest.rest)
          case None => None
          case Some(largest) => Some(Taken(FileMeta(number.v, size.v, smallest.v, largest.v), largest.rest))
  }

  /** The item that follows a tag. */
  function GetItem(tag: nat, b: Bytes): (r: Option<Taken<Item>>)
    ensures r.Some? ==> |r.value.rest| < |b|
  {
    if tag == COMPARATOR then
      match GetString(b)
      case None => None
      case Some(t) => Some(Taken(Comparator(t.v), t.rest))
    else if IsNumber(tag) then
      match GetVarint64(b)
      case None => None
      case Some(t) =>
        Some(Taken(NumberItem(tag, t.v), t.rest))
    else if tag in {COMPACT_POINTER, DELETED_FILE, NEW_FILE} then
      match GetLevel(b)
      case None => None
      case Some(level) =>
        if tag == COMPACT_POINTER then
          match GetString(level.rest)
          case None => None
          case Some(t) => Some(Taken(CompactPointer(level.v, t.v), t.rest))
        else if tag == DELETED_FILE then
          match GetVarint64(level.rest)
          case None => None
          case Some(t) => Some(Taken(DeletedFile(level.v, t.v), t.rest))
        else
          match GetFile(level.rest)
          case None => None
          case Some(t) => Some(Taken(NewFile(level.v, t.v), t.rest))
    else None
  }

  /** Item after item until no further tag can be read; then nothing may be left over. */
  function DecodeItems(b: Bytes, e: Edit): Option<Edit>
    decreases |b|
  {
    match GetVarint32(b)
    case None => if b == [] then Some(e) else None
    case Some(tag) =>
      match GetItem(tag.v, tag.rest)
      case None => None
      case Some(t) => DecodeItems(t.rest, Apply(e, t.v))
  }

  method DecodeFrom(b: Bytes, receiver: Edit) returns (r: Option<Edit>)
    ensures r == DecodeItems(b, Cleared(receiver))
  {
    hide GetItem, GetVarint32, Apply;
    var input, e := b, Cleared(receiver);
    var tag := GetVarint32(input);
    while tag.Some?
      invariant tag == GetVarint32(input)
      invariant DecodeItems(b, Cleared(receiver)) == DecodeItems(input, e)
      decreases |input|
    {
      var t := GetItem(tag.value.v, tag.value.rest);
      if t.None? {
        return None;
      }
      input, e := t.value.rest, Apply(e, t.value.v);
      tag := GetVarint32(input);
    }
    r := if input != [] then None else Some(e);
  }

  // ----- Round trips -----

  lemma FileBack(f: FileMeta, rest: Bytes)
    requires GoodItem(NewFile(0, f))
    ensures GetFile(FileBytes(f) + rest) == Some(Taken(f, rest))
  {
    var n, s, a, b := EncodeVarint(f.number), EncodeVarint(f.size), PutString(f.smallest), PutString(f.largest);
    assert n + (s + (a + b)) + rest == n + (s + (a + (b + rest)));
    Varint64Back(f.number, s + (a + (b + rest)));
    Varint64Back(f.size, a + (b + rest));
    StringBack(f.smallest, b + rest);
    StringBack(f.largest, rest);
    hide GetVarint64, GetString, EncodeVarint, PutString;
  }

  lemma LevelBack(level: nat, tail: Bytes, rest: Bytes)
    requires level < NUM_LEVELS
    ensures GetLevel(EncodeVarint(level) + tail + rest) == Some(Taken(level, tail + rest))
  {
    Assoc(EncodeVarint(level), tail, rest);
    Varint32Back(level, tail + rest);
    hide GetVarint32, EncodeVarint;
  }

  lemma PointerBack(level: nat, key: Bytes, rest: Bytes)
    requires GoodItem(CompactPointer(level, key))
    ensures GetItem(COMPACT_POINTER, Payload(CompactPointer(level, key)) + rest) == Some(Taken(CompactPointer(level, key), rest))
  {
    StringBack(key, rest);
    LevelBack(level, PutString(key), rest);
    hide GetLevel, GetString, EncodeVarint, PutString;
  }

  lemma DeletedFileBack(level: nat, n: nat, rest: Bytes)
    requires GoodItem(DeletedFile(level, n))
    ensures GetItem(DELETED_FILE, Payload(DeletedFile(level, n)) + rest) == Some(Taken(DeletedFile(level, n), rest))
  {
    Varint64Back(n, rest);
    LevelBack(level, EncodeVarint(n), rest);
    hide GetLevel, GetVarint64, EncodeVarint;
  }

  lemma NewFileBack(level: nat, f: FileMeta, rest: Bytes)
    requires GoodItem(NewFile(level, f))
    ensures GetItem(NEW_FILE, Payload(NewFile(level, f)) + rest) == Some(Taken(NewFile(level, f), rest))
  {
    hide GetLevel, GetFile, EncodeVarint, FileBytes;
    FileBack(f, rest);
    LevelBack(level, FileBytes(f), rest);
  }

  lemma ItemBack(i: Item, rest: Bytes)
    requires GoodItem(i)
    ensures GetItem(Tag(i), Payload(i) + rest) == Some(Taken(i, rest))
  {
    match i
    case Comparator(name) =>
      StringBack(name, rest);
      hide GetString, PutString, EncodeVarint;
    case CompactPointer(level, key) =>
      PointerBack(level, key, rest);
      hide GetItem, Payload;
    case DeletedFile(level, n) =>
      DeletedFileBack(level, n, rest);
      hide GetItem, Payload;
    case NewFile(level, f) =>
      NewFileBack(level, f, rest);
      hide GetItem, Payload;
    case _ =>
      Varint64Back(i.n, rest);
      hide GetVarint64, EncodeVarint;
  }

  function ItemsBytes(items: seq<Item>): Bytes {
    if items == [] then [] else ItemBytes(items[0]) + ItemsBytes(items[1..])
  }

  function ApplyAll(e: Edit, items: seq<Item>): Edit
    decreases |items|
  {
    if items == [] then e else ApplyAll(Apply(e, items[0]), items[1..])
  }

  /** Any list of items is read back and applied in order. */
  lemma {:induction false} ItemsBack(items: seq<Item>, e: Edit)
    requires forall i :: 0 <= i < |items| ==> GoodItem(items[i])
    ensures DecodeItems(ItemsBytes(items), e) == Some(ApplyAll(e, items))
    decreases |items|
  {
    if items != [] {
      var i, rest := items[0], ItemsBytes(items[1..]);
      Varint32Back(Tag(i), Payload(i) + rest);
      ItemBack(i, rest);
      ItemsBack(items[1..], Apply(e, i));
      Assoc(EncodeVarint(Tag(i)), Payload(i), rest);
      hide GetVarint32, GetItem, EncodeVarint, Payload, Apply, Tag;
      assert ItemsBytes(items) != [];
    } else {
      assert GetVarint32([]) == None;
    }
  }

  lemma {:induction false} ItemsBytesAppend(items: seq<Item>, i: Item)
    ensures ItemsBytes(items + [i]) == ItemsBytes(items) + ItemBytes(i)
  {
    if items == [] {
      assert [i][1..] == [];
      assert ItemsBytes([i]) == ItemBytes(i) + [];
    } else {
      assert (items + [i])[1..] == items[1..] + [i];
      ItemsBytesAppend(items[1..], i);
      Assoc(ItemBytes(items[0]), ItemsBytes(items[1..]), ItemBytes(i));
    }
  }

  lemma {:induction false} ApplyAllAppend(e: Edit, items: seq<Item>, more: seq<Item>)
    ensures ApplyAll(e, items + more) == ApplyAll(ApplyAll(e, items), more)
    decreases |items|
  {
    if items == [] {
      assert items + more == more;
    } else {
      assert (items + more)[1..] == items[1..] + more;
      ApplyAllAppend(Apply(e, items[0]), items[1..], more);
    }
  }

  // ----- The items of an edit, in the order they are written -----

  /** Deleted files are kept ordered by level, then by number. */
  predicate Before(a: (nat, nat), b: (nat, nat)) {
    a.0 < b.0 || (a.0 == b.0 && a.1 <= b.1)
  }

  predicate IsLeast(x: (nat, nat), s: set<(nat, nat)>) {
    x in s && forall y :: y in s ==> Before(x, y)
  }

  lemma {:induction false} LeastExists(s: set<(nat, nat)>)
    requires s != {}
    ensures exists x :: IsLeast(x, s)
    decreases |s|
  {
    var x :| x in s;
    if s == {x} {
      assert IsLeast(x, s);
    } else {
      LeastExists(s - {x});
      var z :| IsLeast(z, s - {x});
      var least := if Before(x, z) then x else z;
      assert forall y :: y in s && y != x ==> Before(z, y);
      assert IsLeast(least, s);
    }
  }

  /** The deleted files, least first. */
  ghost function Ordered(s: set<(nat, nat)>): seq<Item>
    decreases |s|
  {
    if s == {} then []
    else
      LeastExists(s);
      var x :| IsLeast(x, s);
      [DeletedFile(x.0, x.1)] + Ordered(s - {x})
  }

  function Name(o: Option<Bytes>): seq<Item> {
    if o.Some? then [Comparator(o.value)] else []
  }

  function Number(tag: nat, o: Option<nat>): seq<Item>
    requires IsNumber(tag)
  {
    if o.Some? then [NumberItem(tag, o.value)] else []
  }

  function Scalars(e: Edit): seq<Item> {
    Name(e.comparator)
    + Number(LOG_NUMBER, e.logNumber)
    + Number(PREV_LOG_NUMBER, e.prevLogNumber)
    + Number(NEXT_FILE_NUMBER, e.nextFile)
    + Number(LAST_SEQUENCE, e.lastSequence)
  }

  function Pointers(p: seq<(nat, Bytes)>): seq<Item> {
    seq(|p|, i requires 0 <= i < |p| => CompactPointer(p[i].0, p[i].1))
  }

  function NewFiles(a: seq<(nat, FileMeta)>): seq<Item> {
    seq(|a|, i requires 0 <= i < |a| => NewFile(a[i].0, a[i].1))
  }

  ghost function Items(e: Edit): seq<Item> {
    Scalars(e) + Pointers(e.pointers) + Ordered(e.deleted) + NewFiles(e.added)
  }

  /** Numbers fit their widths, strings their length prefixes, levels the tree. */
  ghost predicate GoodEdit(e: Edit) {
    && (e.comparator.Some? ==> GoodItem(Comparator(e.comparator.value)))
    && (e.logNumber.Some? ==> e.logNumber.value < TWO_64)
    && (e.prevLogNumber.Some? ==> e.prevLogNumber.value < TWO_64)
    && (e.nextFile.Some? ==> e.nextFile.value < TWO_64)
    && (e.lastSequence.Some? ==> e.lastSequence.value < TWO_64)
    && (forall i :: 0 <= i < |e.pointers| ==> GoodItem(CompactPointer(e.pointers[i].0, e.pointers[i].1)))
    && (forall d :: d in e.deleted ==> GoodItem(DeletedFile(d.0, d.1)))
    && (forall i :: 0 <= i < |e.added| ==> GoodItem(NewFile(e.added[i].0, e.added[i].1)))
  }

  method Emit(dst: Bytes, i: Item, ghost before: seq<Item>) returns (r: Bytes)
    requires dst == ItemsBytes(before)
    ensures r == ItemsBytes(before + [i])
  {
    r := dst + ItemBytes(i);
    ItemsBytesAppend(before, i);
  }

  method EmitNumber(dst: Bytes, tag: nat, o: Option<nat>, ghost before: seq<Item>) returns (r: Bytes)
    requires dst == ItemsBytes(before) && IsNumber(tag)
    ensures r == ItemsBytes(before + Number(tag, o))
  {
    hide ItemsBytes, NumberItem;
    r := dst;
    if o.Some? {
      r := Emit(dst, NumberItem(tag, o.value), before);
    }
    assert before + [] == before;
  }

  method EncodeScalars(e: Edit) returns (r: Bytes)
    ensures r == ItemsBytes(Scalars(e))
  {
    r := [];
    assert r == ItemsBytes([]);
    if e.comparator.Some? {
      r := Emit(r, Comparator(e.comparator.value), []);
      assert [] + [Comparator(e.comparator.value)] == Name(e.comparator);
    }
    hide ItemsBytes, Name, Number;
    r := EmitNumber(r, LOG_NUMBER, e.logNumber, Name(e.comparator));
    r := EmitNumber(r, PREV_LOG_NUMBER, e.prevLogNumber, Name(e.comparator) + Number(LOG_NUMBER, e.logNumber));
    r := EmitNumber(r, NEXT_FILE_NUMBER, e.nextFile,
                    Name(e.comparator) + Number(LOG_NUMBER, e.logNumber) + Number(PREV_LOG_NUMBER, e.prevLogNumber));
    r := EmitNumber(r, LAST_SEQUENCE, e.lastSequence,
                    Name(e.comparator) + Number(LOG_NUMBER, e.logNumber) + Number(PREV_LOG_NUMBER, e.prevLogNumber)
                    + Number(NEXT_FILE_NUMBER, e.nextFile));
  }

  method EncodePointers(dst: Bytes, p: seq<(nat, Bytes)>, ghost before: seq<Item>) returns (r: Bytes)
    requires dst == ItemsBytes(before)
    ensures r == ItemsBytes(before + Pointers(p))
  {
    hide ItemsBytes, ItemBytes;
    r := dst;
    assert before + Pointers(p[..0]) == before;
    for i := 0 to |p|
      invariant r == ItemsBytes(before + Pointers(p[..i]))
    {
      assert before + Pointers(p[..i]) + [CompactPointer(p[i].0, p[i].1)] == before + Pointers(p[..i + 1]);
      r := Emit(r, CompactPointer(p[i].0, p[i].1), before + Pointers(p[..i]));
    }
    assert p[..|p|] == p;
  }

  method EncodeNewFiles(dst: Bytes, a: seq<(nat, FileMeta)>, ghost before: seq<Item>) returns (r: Bytes)
    requires dst == ItemsBytes(before)
    ensures r == ItemsBytes(before + NewFiles(a))
  {
    hide ItemsBytes, ItemBytes;
    r := dst;
    assert before + NewFiles(a[..0]) == before;
    for i := 0 to |a|
      invariant r == ItemsBytes(before + NewFiles(a[..i]))
    {
      assert before + NewFiles(a[..i]) + [NewFile(a[i].0, a[i].1)] == before + NewFiles(a[..i + 1]);
      r := Emit(r, NewFile(a[i].0, a[i].1), before + NewFiles(a[..i]));
    }
    assert a[..|a|] == a;
  }

  method EncodeDeleted(dst: Bytes, s: set<(nat, nat)>, ghost before: seq<Item>) returns (r: Bytes)
    requires dst == ItemsBytes(before)
    ensures r == ItemsBytes(before + Ordered(s))
  {
    hide ItemsBytes, ItemBytes;
    r := dst;
    var rest := s;
    ghost var done := before;
    while rest != {}
      invariant r == ItemsBytes(done)
      invariant done + Ordered(rest) == before + Ordered(s)
      decreases |rest|
    {
      LeastExists(rest);
      var x :| x in rest && IsLeast(x, rest);
      r := Emit(r, DeletedFile(x.0, x.1), done);
      OrderedStep(rest, x);
      assert done + ([DeletedFile(x.0, x.1)] + Ordered(rest - {x})) == done + [DeletedFile(x.0, x.1)] + Ordered(rest - {x});
      rest, done := rest - {x}, done + [DeletedFile(x.0, x.1)];
    }
    assert done + [] == done;
  }

  lemma OrderedStep(s: set<(nat, nat)>, x: (nat, nat))
    requires IsLeast(x, s)
    ensures Ordered(s) == [DeletedFile(x.0, x.1)] + Ordered(s - {x})
  {
    assert forall y :: IsLeast(y, s) ==> y == x;
  }

  method EncodeTo(e: Edit) returns (r: Bytes)
    ensures r == ItemsBytes(Items(e))
  {
    r := EncodeScalars(e);
    r := EncodePointers(r, e.pointers, Scalars(e));
    r := EncodeDeleted(r, e.deleted, Scalars(e) + Pointers(e.pointers));
    r := EncodeNewFiles(r, e.added, Scalars(e) + Pointers(e.pointers) + Ordered(e.deleted));
  }

  // ----- Decoding what was encoded -----

  lemma ApplyNumber(x: Edit, tag: nat, o: Option<nat>)
    requires IsNumber(tag)
    ensures ApplyAll(x, Number(tag, o)) == if o.Some? then Apply(x, NumberItem(tag, o.value)) else x
  {
    if o.Some? {
      assert Number(tag, o)[1..] == [];
    }
  }

  lemma ApplyName(x: Edit, o: Option<Bytes>)
    ensures ApplyAll(x, Name(o)) == if o.Some? then x.(comparator := o) else x
  {
    if o.Some? {
      assert Name(o)[1..] == [];
    }
  }

  lemma ApplyScalars(x: Edit, e: Edit)
    requires Cleared(x) == x
    ensures ApplyAll(x, Scalars(e)) ==
            Edit(e.comparator, e.logNumber, e.prevLogNumber, e.nextFile, e.lastSequence, x.pointers, {}, [])
  {
    var c, l, p := Name(e.comparator), Number(LOG_NUMBER, e.logNumber), Number(PREV_LOG_NUMBER, e.prevLogNumber);
    var n, q := Number(NEXT_FILE_NUMBER, e.nextFile), Number(LAST_SEQUENCE, e.lastSequence);
    ApplyAllAppend(x, c + l + p + n, q);
    ApplyAllAppend(x, c + l + p, n);
    ApplyAllAppend(x, c + l, p);
    ApplyAllAppend(x, c, l);
    hide ApplyAll, Name, Number;
    var x1 := x.(comparator := e.comparator);
    ApplyName(x, e.comparator);
    var x2 := x1.(logNumber := e.logNumber);
    ApplyNumber(x1, LOG_NUMBER, e.logNumber);
    var x3 := x2.(prevLogNumber := e.prevLogNumber);
    ApplyNumber(x2, PREV_LOG_NUMBER, e.prevLogNumber);
    var x4 := x3.(nextFile := e.nextFile);
    ApplyNumber(x3, NEXT_FILE_NUMBER, e.nextFile);
    ApplyNumber(x4, LAST_SEQUENCE, e.lastSequence);
  }

  lemma {:induction false} ApplyPointers(x: Edit, p: seq<(nat, Bytes)>)
    ensures ApplyAll(x, Pointers(p)) == x.(pointers := x.pointers + p)
    decreases |p|
  {
    if p == [] {
      assert x.pointers + p == x.pointers;
    } else {
      assert Pointers(p)[1..] == Pointers(p[1..]);
      assert x.pointers + p == x.pointers + [p[0]] + p[1..];
      ApplyPointers(x.(pointers := x.pointers + [p[0]]), p[1..]);
    }
  }

  lemma {:induction false} ApplyNewFiles(x: Edit, a: seq<(nat, FileMeta)>)
    ensures ApplyAll(x, NewFiles(a)) == x.(added := x.added + a)
    decreases |a|
  {
    if a == [] {
      assert x.added + a == x.added;
    } else {
      assert NewFiles(a)[1..] == NewFiles(a[1..]);
      assert x.added + a == x.added + [a[0]] + a[1..];
      ApplyNewFiles(x.(added := x.added + [a[0]]), a[1..]);
    }
  }

  lemma {:induction false} ApplyOrdered(x: Edit, s: set<(nat, nat)>)
    ensures ApplyAll(x, Ordered(s)) == x.(deleted := x.deleted + s)
    ensures forall i :: 0 <= i < |Ordered(s)| ==> Ordered(s)[i].DeletedFile? && (Ordered(s)[i].level, Ordered(s)[i].n) in s
    decreases |s|
  {
    if s == {} {
      assert x.deleted + s == x.deleted;
    } else {
      LeastExists(s);
      var d :| IsLeast(d, s);
      OrderedStep(s, d);
      assert Ordered(s)[1..] == Ordered(s - {d});
      assert x.deleted + s == x.deleted + {d} + (s - {d});
      ApplyOrdered(x.(deleted := x.deleted + {d}), s - {d});
    }
  }

  lemma GoodItems(e: Edit)
    requires GoodEdit(e)
    ensures forall i :: 0 <= i < |Items(e)| ==> GoodItem(Items(e)[i])
  {
    ApplyOrdered(Cleared(e), e.deleted);
    assert forall i :: 0 <= i < |Ordered(e.deleted)| ==> GoodItem(Ordered(e.deleted)[i]);
    hide Ordered;
    assert forall i :: 0 <= i < |Scalars(e)| ==> GoodItem(Scalars(e)[i]);
  }

  /** Decoding an encoded edit gives it back, except that the compaction pointers the
      receiving object already held stay in front: `Clear` does not empty them. */
  lemma EditRoundTrip(e: Edit, receiver: Edit)
    requires GoodEdit(e)
    ensures DecodeItems(ItemsBytes(Items(e)), Cleared(receiver)) == Some(e.(pointers := receiver.pointers + e.pointers))
  {
    var x := Cleared(receiver);
    var a, b, c, d := Scalars(e), Pointers(e.pointers), Ordered(e.deleted), NewFiles(e.added);
    assert Items(e) == a + b + c + d;
    ApplyScalars(x, e);
    var y := Edit(e.comparator, e.logNumber, e.prevLogNumber, e.nextFile, e.lastSequence, receiver.pointers, {}, []);
    assert ApplyAll(x, a) == y;
    GoodItems(e);
    hide *;
    ItemsBack(Items(e), x);
    ApplyAllAppend(x, a + b + c, d);
    ApplyAllAppend(x, a + b, c);
    ApplyAllAppend(x, a, b);
    ApplyPointers(y, e.pointers);
    var z := y.(pointers := receiver.pointers + e.pointers);
    ApplyOrdered(z, e.deleted);
    assert {} + e.deleted == e.deleted;
    ApplyNewFiles(z.(deleted := e.deleted), e.added);
    assert [] + e.added == e.added;
  }

  /** So the round trip is exact if and only if the receiver held no compaction pointer. */
  lemma EditRoundTripExact(e: Edit, receiver: Edit)
    requires GoodEdit(e)
    ensures DecodeItems(ItemsBytes(Items(e)), Cleared(receiver)) == Some(e) <==> receiver.pointers == []
  {
    EditRoundTrip(e, receiver);
    hide DecodeItems, ItemsBytes, Items;
    assert |receiver.pointers + e.pointers| == |receiver.pointers| + |e.pointers|;
    assert [] + e.pointers == e.pointers;
  }
}
