/** Table files, versions (seven levels of files) and the searches made in them. */
module Versions {
  import opened Entries

  const NUM_LEVELS := 7
  const MAX_MEM_COMPACT_LEVEL := 2

  datatype File = File(number: nat, size: nat, entries: seq<Entry>) {
    function Smallest(): InternalKey
      requires entries != []
    {
      entries[0].k
    }

    function Largest(): InternalKey
      requires entries != []
    {
      entries[|entries| - 1].k
    }
  }

  /** A finished table holds at least one entry, and its keys increase strictly. */
  type TableFile = f: File | f.entries != [] && Sorted(f.entries)
    witness File(0, 0, [Entry(InternalKey(0.0, 0, Deletion), "")])

  type Version = v: seq<seq<TableFile>> | |v| == NUM_LEVELS
    witness seq(NUM_LEVELS, _ => [])

  function EmptyVersion(): Version {
    seq(NUM_LEVELS, _ => [])
  }

  ghost function FileSetEntries(files: set<TableFile>): set<Entry> {
    set f, e | f in files && e in f.entries :: e
  }

  ghost function LevelEntries(files: seq<TableFile>): (r: set<Entry>)
    ensures forall f, e :: f in files && e in f.entries ==> e in r
    ensures forall e :: e in r ==> exists f :: f in files && e in f.entries
  {
    FileSetEntries(ToSet(files))
  }

  ghost function VersionEntries(v: Version): (r: set<Entry>)
    ensures forall l, e :: 0 <= l < NUM_LEVELS && e in LevelEntries(v[l]) ==> e in r
    ensures forall e :: e in r ==> exists l :: 0 <= l < NUM_LEVELS && e in LevelEntries(v[l])
  {
    set l, e | 0 <= l < NUM_LEVELS && e in LevelEntries(v[l]) :: e
  }

  // ----- Shape of the levels -----

  /** Levels above 0 are laid out in key order. */
  ghost predicate SortedLevel(files: seq<TableFile>) {
    forall i, j :: 0 <= i < j < |files| ==> Lt(files[i].Largest(), files[j].Smallest())
  }

  /** No user key spans two files. */
  ghost predicate CleanCut(files: seq<TableFile>) {
    forall i, j :: 0 <= i < j < |files| ==> files[i].Largest().user < files[j].Smallest().user
  }

  lemma FileBounds(f: TableFile, e: Entry)
    requires e in f.entries
    ensures f.Smallest().user <= e.k.user <= f.Largest().user
    ensures !Lt(e.k, f.Smallest()) && !Lt(f.Largest(), e.k)
  {
  }

  lemma CleanCutIsSorted(files: seq<TableFile>)
    requires CleanCut(files)
    ensures SortedLevel(files)
  {
  }

  /** Wherever both collections know a key, every entry of the first is the newer one. */
  ghost predicate Newer(a: set<Entry>, b: set<Entry>) {
    forall e, o :: e in a && o in b && e.k.user == o.k.user ==> e.k.seqno > o.k.seqno
  }

  /** An entry at a smaller level is newer than every entry of the same key at a larger one. */
  ghost predicate AgeOrdered(v: Version) {
    forall i, j :: 0 <= i < j < NUM_LEVELS ==> Newer(LevelEntries(v[i]), LevelEntries(v[j]))
  }

  /** Level-0 files are told apart by number, and the higher number holds the newer data. */
  ghost predicate Level0Age(files: seq<TableFile>) {
    && DistinctNumbers(files)
    && forall f, g :: f in files && g in files && f.number > g.number ==> Newer(ToSet(f.entries), ToSet(g.entries))
  }

  ghost predicate Searchable(v: Version) {
    && (forall l :: 1 <= l < NUM_LEVELS ==> SortedLevel(v[l]))
    && Level0Age(v[0])
    && AgeOrdered(v)
  }

  // ----- Searching a level -----

  /** Index of the first file whose largest key is not before `key`. */
  method FindFile(files: seq<TableFile>, key: InternalKey) returns (index: nat)
    requires SortedLevel(files)
    ensures index <= |files|
    ensures forall i :: 0 <= i < index ==> Lt(files[i].Largest(), key)
    ensures forall i :: index <= i < |files| ==> !Lt(files[i].Largest(), key)
  {
    var left, right := 0, |files|;
    while left < right
      invariant 0 <= left <= right <= |files|
      invariant forall i :: 0 <= i < left ==> Lt(files[i].Largest(), key)
      invariant forall i :: right <= i < |files| ==> !Lt(files[i].Largest(), key)
    {
      var mid := (left + right) / 2;
      LargestIncreases(files);
      if Lt(files[mid].Largest(), key) {
        left := mid + 1;
      } else {
        right := mid;
      }
    }
    index := right;
  }

  lemma LargestIncreases(files: seq<TableFile>)
    requires SortedLevel(files)
    ensures forall i, j :: 0 <= i < j < |files| ==> Lt(files[i].Largest(), files[j].Largest())
  {
    forall i, j | 0 <= i < j < |files| ensures Lt(files[i].Largest(), files[j].Largest()) {
      FileBounds(files[j], files[j].entries[|files[j].entries| - 1]);
    }
  }

  /** Only the file found by binary search can hold the newest candidate of a sorted level. */
  method SearchSortedLevel(files: seq<TableFile>, u: UserKey, s: SequenceNumber) returns (l: Lookup)
    requires SortedLevel(files)
    ensures Reports(LevelEntries(files), u, s, l)
  {
    var target := SeekKey(u, s);
    var index := FindFile(files, target);
    forall e | e in LevelEntries(files) && Candidate(e, u, s)
      ensures exists i :: index <= i < |files| && e in files[i].entries
    {
      var f :| f in files && e in f.entries;
      var i :| 0 <= i < |files| && files[i] == f;
      FileBounds(f, e);
      SeekKeySplits(e, u, s);
    }
    if index == |files| || u < files[index].Smallest().user {
      l := Missing;
      forall e | e in LevelEntries(files) ensures !Candidate(e, u, s) {
        if Candidate(e, u, s) {
          var i :| index <= i < |files| && e in files[i].entries;
          FileBounds(files[i], e);
          FileBounds(files[index], files[index].entries[|files[index].entries| - 1]);
        }
      }
    } else {
      l := Find(files[index].entries, u, s);
      LaterFilesAreOlder(files, index, u, s, l);
    }
  }

  lemma LaterIsLarger(files: seq<TableFile>, i: nat, j: nat, e: Entry, o: Entry)
    requires SortedLevel(files) && i < j < |files|
    requires e in files[i].entries && o in files[j].entries
    ensures Lt(e.k, o.k)
    ensures e.k.user == o.k.user ==> e.k.seqno >= o.k.seqno
  {
    FileBounds(files[i], e);
    FileBounds(files[j], o);
  }

  lemma LaterFilesAreOlder(files: seq<TableFile>, index: nat, u: UserKey, s: SequenceNumber, l: Lookup)
    requires SortedLevel(files) && index < |files|
    requires Reports(ToSet(files[index].entries), u, s, l)
    requires !Lt(files[index].Largest(), SeekKey(u, s)) && files[index].Smallest().user <= u
    requires forall e :: e in LevelEntries(files) && Candidate(e, u, s) ==>
               exists i :: index <= i < |files| && e in files[i].entries
    ensures Reports(LevelEntries(files), u, s, l)
  {
    if l.Missing? {
      forall e | e in LevelEntries(files) ensures !Candidate(e, u, s) {
        if Candidate(e, u, s) {
          var i :| index <= i < |files| && e in files[i].entries;
          MissingEndsLevel(files, index, i, u, s, e);
        }
      }
    } else {
      var n :| IsNewest(ToSet(files[index].entries), u, s, n) && l == ToLookup(n);
      NewestOfFileIsNewest(files, index, u, s, n);
    }
  }

  lemma NewestOfFileIsNewest(files: seq<TableFile>, index: nat, u: UserKey, s: SequenceNumber, n: Entry)
    requires SortedLevel(files) && index < |files|
    requires IsNewest(ToSet(files[index].entries), u, s, n)
    requires forall e :: e in LevelEntries(files) && Candidate(e, u, s) ==>
               exists i :: index <= i < |files| && e in files[i].entries
    ensures IsNewest(LevelEntries(files), u, s, n)
  {
    forall e | e in LevelEntries(files) && Candidate(e, u, s) ensures e.k.seqno <= n.k.seqno {
      var i :| index <= i < |files| && e in files[i].entries;
      if i > index {
        LaterIsLarger(files, index, i, n, e);
      }
    }
    assert files[index] in files && n in files[index].entries;
  }

  lemma MissingEndsLevel(files: seq<TableFile>, index: nat, i: nat, u: UserKey, s: SequenceNumber, e: Entry)
    requires SortedLevel(files) && index <= i < |files|
    requires !Lt(files[index].Largest(), SeekKey(u, s))
    requires Reports(ToSet(files[index].entries), u, s, Missing)
    requires e in files[i].entries
    ensures !Candidate(e, u, s)
  {
    var f := files[index];
    var last := f.entries[|f.entries| - 1];
    assert last in ToSet(f.entries);
    SeekKeySplits(last, u, s);
    if i == index {
      assert e in ToSet(f.entries);
    } else {
      LaterIsLarger(files, index, i, last, e);
    }
  }

  /** Newest file first. */
  ghost predicate NewestFirst(files: seq<TableFile>) {
    forall i, j :: 0 <= i < j < |files| ==> files[i].number > files[j].number
  }

  ghost predicate DistinctNumbers(files: seq<TableFile>) {
    forall i, j :: 0 <= i < j < |files| ==> files[i].number != files[j].number
  }

  method InsertNewestFirst(files: seq<TableFile>, f: TableFile) returns (r: seq<TableFile>)
    requires NewestFirst(files)
    requires forall g :: g in files ==> g.number != f.number
    ensures NewestFirst(r)
    ensures forall g :: g in r <==> g == f || g in files
  {
    var i := 0;
    while i < |files| && files[i].number > f.number
      invariant 0 <= i <= |files|
      invariant forall j :: 0 <= j < i ==> files[j].number > f.number
    {
      i := i + 1;
    }
    assert forall j :: i <= j < |files| ==> files[j] in files && files[j].number < f.number;
    InsertedInOrder(files, i, f);
    hide NewestFirst;
    r := files[..i] + [f] + files[i..];
    assert files == files[..i] + files[i..];
  }

  lemma InsertedInOrder(files: seq<TableFile>, i: nat, f: TableFile)
    requires NewestFirst(files) && i <= |files|
    requires forall j :: 0 <= j < i ==> files[j].number > f.number
    requires forall j :: i <= j < |files| ==> files[j].number < f.number
    ensures NewestFirst(files[..i] + [f] + files[i..])
  {
    var r := files[..i] + [f] + files[i..];
    assert forall a :: 0 <= a < |r| ==> r[a] == if a < i then files[a] else if a == i then f else files[a - 1];
  }

  method SortNewestFirst(files: seq<TableFile>) returns (r: seq<TableFile>)
    requires DistinctNumbers(files)
    ensures NewestFirst(r)
    ensures forall f :: f in r <==> f in files
  {
    r := [];
    for n := 0 to |files|
      invariant NewestFirst(r)
      invariant forall f :: f in r <==> f in files[..n]
    {
      r := InsertNewestFirst(r, files[n]);
      assert files[..n + 1] == files[..n] + [files[n]];
    }
    assert files[..|files|] == files;
  }

  /** The files whose range holds the key. */
  method FilesAround(files: seq<TableFile>, u: UserKey) returns (tmp: seq<TableFile>)
    requires DistinctNumbers(files)
    ensures DistinctNumbers(tmp)
    ensures forall f :: f in tmp <==> f in files && f.Smallest().user <= u <= f.Largest().user
  {
    tmp := [];
    for i := 0 to |files|
      invariant forall f :: f in tmp <==> f in files[..i] && f.Smallest().user <= u <= f.Largest().user
      invariant DistinctNumbers(tmp)
    {
      assert files[..i + 1] == files[..i] + [files[i]];
      forall f | f in tmp ensures f.number != files[i].number {
        var k :| 0 <= k < i && files[k] == f;
      }
      if files[i].Smallest().user <= u <= files[i].Largest().user {
        tmp := tmp + [files[i]];
      }
    }
    assert files[..|files|] == files;
  }

  lemma CandidatesAround(files: seq<TableFile>, tmp: seq<TableFile>, u: UserKey, s: SequenceNumber)
    requires forall f :: f in tmp <==> f in files && f.Smallest().user <= u <= f.Largest().user
    ensures forall e :: e in LevelEntries(files) && Candidate(e, u, s) ==> exists f :: f in tmp && e in f.entries
  {
    forall e | e in LevelEntries(files) && Candidate(e, u, s) ensures exists f :: f in tmp && e in f.entries {
      var f :| f in files && e in f.entries;
      FileBounds(f, e);
    }
  }

  /** Level-0 files overlap, so every one whose range holds the key is searched, newest first. */
  method SearchLevel0(files: seq<TableFile>, u: UserKey, s: SequenceNumber) returns (l: Lookup)
    requires Level0Age(files)
    ensures Reports(LevelEntries(files), u, s, l)
  {
    var around := FilesAround(files, u);
    var tmp := SortNewestFirst(around);
    CandidatesAround(files, tmp, u, s);
    hide Level0Age, NewestFirst, DistinctNumbers;
    for i := 0 to |tmp|
      invariant forall j, e :: 0 <= j < i && e in tmp[j].entries ==> !Candidate(e, u, s)
    {
      l := Find(tmp[i].entries, u, s);
      if l != Missing {
        OlderFilesAreOlder(files, tmp, i, u, s, l);
        return;
      }
      MissingFromAll(tmp[i].entries, u, s);
    }
    l := Missing;
  }

  lemma MissingFromAll(run: seq<Entry>, u: UserKey, s: SequenceNumber)
    requires Reports(ToSet(run), u, s, Missing)
    ensures forall e :: e in run ==> !Candidate(e, u, s)
  {
    assert forall e :: e in run ==> e in ToSet(run);
  }

  lemma OlderFilesAreOlder(files: seq<TableFile>, tmp: seq<TableFile>, i: nat, u: UserKey, s: SequenceNumber, l: Lookup)
    requires Level0Age(files) && NewestFirst(tmp) && i < |tmp|
    requires forall f :: f in tmp ==> f in files
    requires forall e :: e in LevelEntries(files) && Candidate(e, u, s) ==> exists f :: f in tmp && e in f.entries
    requires forall j, e :: 0 <= j < i && e in tmp[j].entries ==> !Candidate(e, u, s)
    requires l != Missing && Reports(ToSet(tmp[i].entries), u, s, l)
    ensures Reports(LevelEntries(files), u, s, l)
  {
    var n :| IsNewest(ToSet(tmp[i].entries), u, s, n) && l == ToLookup(n);
    forall e | e in LevelEntries(files) && Candidate(e, u, s) ensures e.k.seqno <= n.k.seqno {
      var g :| g in tmp && e in g.entries;
      var j :| 0 <= j < |tmp| && tmp[j] == g;
      if j > i {
        assert Newer(ToSet(tmp[i].entries), ToSet(g.entries));
        assert e in ToSet(g.entries);
      } else if j == i {
        assert e in ToSet(tmp[i].entries);
      } else {
        assert false;
      }
    }
    assert tmp[i] in files && n in tmp[i].entries;
  }

  /** Searching level by level, the first level that knows the key answers, and answers with `e`. */
  ghost predicate LookupFinds(v: Version, u: UserKey, s: SequenceNumber, e: Entry) {
    exists level :: 0 <= level < NUM_LEVELS && NothingAbove(v, level, u, s) && IsNewest(LevelEntries(v[level]), u, s, e)
  }

  ghost predicate NothingAbove(v: Version, level: nat, u: UserKey, s: SequenceNumber)
    requires level <= NUM_LEVELS
  {
    forall i, e :: 0 <= i < level && e in LevelEntries(v[i]) ==> !Candidate(e, u, s)
  }

  /** What such a search reports. */
  ghost predicate LookupReports(v: Version, u: UserKey, s: SequenceNumber, l: Lookup) {
    if l.Missing? then NothingAbove(v, NUM_LEVELS, u, s)
    else exists e :: LookupFinds(v, u, s, e) && l == ToLookup(e)
  }

  /** `Version::Get`: level by level, stopping at the first level that knows the key. */
  method Get(v: Version, u: UserKey, s: SequenceNumber) returns (l: Lookup)
    requires forall i :: 1 <= i < NUM_LEVELS ==> SortedLevel(v[i])
    requires Level0Age(v[0])
    ensures LookupReports(v, u, s, l)
    ensures AgeOrdered(v) ==> Reports(VersionEntries(v), u, s, l)
  {
    hide AgeOrdered, Level0Age, SortedLevel, VersionEntries, NothingAbove;
    NothingAboveTop(v, u, s);
    l := Missing;
    for level := 0 to NUM_LEVELS
      invariant l == Missing && NothingAbove(v, level, u, s)
    {
      if level == 0 {
        l := SearchLevel0(v[0], u, s);
      } else {
        l := SearchSortedLevel(v[level], u, s);
      }
      if l != Missing {
        FirstLevelAnswers(v, level, u, s, l);
        break;
      }
      MissingFromLevel(v, level, u, s);
    }
    if AgeOrdered(v) {
      LookupReportsAll(v, u, s, l);
    }
  }

  lemma NothingAboveTop(v: Version, u: UserKey, s: SequenceNumber)
    ensures NothingAbove(v, 0, u, s)
  {
  }

  lemma FirstLevelAnswers(v: Version, level: nat, u: UserKey, s: SequenceNumber, l: Lookup)
    requires level < NUM_LEVELS && NothingAbove(v, level, u, s)
    requires l != Missing && Reports(LevelEntries(v[level]), u, s, l)
    ensures LookupReports(v, u, s, l)
  {
    var e :| IsNewest(LevelEntries(v[level]), u, s, e) && l == ToLookup(e);
    assert LookupFinds(v, u, s, e);
  }

  lemma MissingFromLevel(v: Version, level: nat, u: UserKey, s: SequenceNumber)
    requires level < NUM_LEVELS && NothingAbove(v, level, u, s) && Reports(LevelEntries(v[level]), u, s, Missing)
    ensures NothingAbove(v, level + 1, u, s)
  {
  }

  /** What the first level with a candidate finds is newest in the whole version. */
  lemma FirstLevelWins(v: Version, u: UserKey, s: SequenceNumber, n: Entry)
    requires AgeOrdered(v) && LookupFinds(v, u, s, n)
    ensures IsNewest(VersionEntries(v), u, s, n)
  {
    var level :| 0 <= level < NUM_LEVELS && NothingAbove(v, level, u, s) && IsNewest(LevelEntries(v[level]), u, s, n);
    forall e | e in VersionEntries(v) && Candidate(e, u, s) ensures e.k.seqno <= n.k.seqno {
      var i :| 0 <= i < NUM_LEVELS && e in LevelEntries(v[i]);
      if i > level {
        assert Newer(LevelEntries(v[level]), LevelEntries(v[i]));
      }
    }
  }

  lemma LookupReportsAll(v: Version, u: UserKey, s: SequenceNumber, l: Lookup)
    requires AgeOrdered(v) && LookupReports(v, u, s, l)
    ensures Reports(VersionEntries(v), u, s, l)
  {
    if !l.Missing? {
      var e :| LookupFinds(v, u, s, e) && l == ToLookup(e);
      FirstLevelWins(v, u, s, e);
    }
  }

  /** No entry is held at two levels. */
  ghost predicate HeldOnce(v: Version) {
    forall i, j :: 0 <= i < j < NUM_LEVELS ==> LevelEntries(v[i]) !! LevelEntries(v[j])
  }

  /** When an older entry lies above a newer one of the same key, a reader just new enough for the
      newer one is given an older one. */
  lemma {:induction false} StaleLookup(v: Version, i: nat, j: nat, newer: Entry, older: Entry) returns (found: Entry)
    requires Distinct(VersionEntries(v)) && HeldOnce(v) && i < j < NUM_LEVELS
    requires older in LevelEntries(v[i]) && newer in LevelEntries(v[j])
    requires Candidate(older, newer.k.user, newer.k.seqno)
    ensures LookupFinds(v, newer.k.user, newer.k.seqno, found) && found.k.seqno < newer.k.seqno
    ensures IsNewest(VersionEntries(v), newer.k.user, newer.k.seqno, newer)
    decreases i
  {
    hide Distinct, HeldOnce, VersionEntries;
    var u, s := newer.k.user, newer.k.seqno;
    if l, e :| 0 <= l < i && e in LevelEntries(v[l]) && Candidate(e, u, s) {
      found := StaleLookup(v, l, j, newer, e);
    } else {
      found := NewestExists(LevelEntries(v[i]), u, s, older);
      FoundIsOlder(v, i, j, newer, found);
      assert NothingAbove(v, i, u, s);
    }
  }

  lemma FoundIsOlder(v: Version, i: nat, j: nat, newer: Entry, found: Entry)
    requires Distinct(VersionEntries(v)) && HeldOnce(v) && i < j < NUM_LEVELS
    requires newer in LevelEntries(v[j]) && IsNewest(LevelEntries(v[i]), newer.k.user, newer.k.seqno, found)
    ensures found.k.seqno < newer.k.seqno && IsNewest(VersionEntries(v), newer.k.user, newer.k.seqno, newer)
  {
    assert found in VersionEntries(v) && newer in VersionEntries(v);
    assert LevelEntries(v[i]) !! LevelEntries(v[j]);
    hide LevelEntries, VersionEntries;
  }

  lemma OlderIsNotNewest(entries: set<Entry>, newer: Entry, found: Entry)
    requires IsNewest(entries, newer.k.user, newer.k.seqno, newer) && found.k.seqno < newer.k.seqno
    ensures !IsNewest(entries, newer.k.user, newer.k.seqno, found)
  {
  }

  lemma OlderAboveMisleads(v: Version, i: nat, j: nat)
    requires Distinct(VersionEntries(v)) && HeldOnce(v) && i < j < NUM_LEVELS
    requires !Newer(LevelEntries(v[i]), LevelEntries(v[j]))
    ensures exists u, s: SequenceNumber, e :: LookupFinds(v, u, s, e) && !IsNewest(VersionEntries(v), u, s, e)
  {
    var older, newer :| older in LevelEntries(v[i]) && newer in LevelEntries(v[j])
      && older.k.user == newer.k.user && older.k.seqno <= newer.k.seqno;
    hide LookupFinds, IsNewest, VersionEntries, Distinct, HeldOnce, LevelEntries;
    var found := StaleLookup(v, i, j, newer, older);
    OlderIsNotNewest(VersionEntries(v), newer, found);
    assert LookupFinds(v, newer.k.user, newer.k.seqno, found);
  }

  /** Searching level by level finds the newest entry, for every key and every reader, if and only if
      no level holds anything older than a level below it. */
  lemma LookupsFindNewest(v: Version)
    requires Distinct(VersionEntries(v)) && HeldOnce(v)
    ensures AgeOrdered(v) <==> forall u, s: SequenceNumber, e :: LookupFinds(v, u, s, e) ==> IsNewest(VersionEntries(v), u, s, e)
  {
    hide LookupFinds, IsNewest, VersionEntries, Distinct, HeldOnce;
    if AgeOrdered(v) {
      forall u, s: SequenceNumber, e | LookupFinds(v, u, s, e) ensures IsNewest(VersionEntries(v), u, s, e) {
        FirstLevelWins(v, u, s, e);
      }
    } else {
      var i, j :| 0 <= i < j < NUM_LEVELS && !Newer(LevelEntries(v[i]), LevelEntries(v[j]));
      OlderAboveMisleads(v, i, j);
    }
  }

  /** Leveled lookup refines the lookup over the union of all files. */
  lemma ReportsVisible(entries: set<Entry>, u: UserKey, s: SequenceNumber, l: Lookup)
    requires Distinct(entries) && Reports(entries, u, s, l)
    ensures Answer(l) == Visible(entries, u, s)
  {
    if l.Missing? {
      VisibleNone(entries, u, s);
    } else {
      var e :| IsNewest(entries, u, s, e) && l == ToLookup(e);
      VisibleIs(entries, u, s, e);
    }
  }
}
