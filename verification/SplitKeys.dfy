/** A user key that comes to span two files, and what compacting one of them does to readers: the
    smallest inputs on which the engine's promise to its readers fails. */
module SplitKeys {
  import opened Entries
  import opened Versions
  import opened VersionBuilder
  import opened CompactionInputs
  import opened Compactions
  import opened LevelInvariant
  import opened CleanCuts

  const U: UserKey := 0.0

  const NEW_ENTRY := Entry(InternalKey(U, 5, Value), "new")
  const OLD_ENTRY := Entry(InternalKey(U, 3, Value), "old")
  const TOMBSTONE := Entry(InternalKey(U, 5, Deletion), "")

  // ----- How a key is split -----

  function Together(): TableFile {
    File(1, 2, [NEW_ENTRY, OLD_ENTRY])
  }

  lemma BothSurvive(v: Version, level: nat, snapshot: SequenceNumber)
    requires 3 <= snapshot < 5
    ensures Kept(v, level, [NEW_ENTRY, OLD_ENTRY], snapshot, 2) == [NEW_ENTRY, OLD_ENTRY]
  {
    var input := [NEW_ENTRY, OLD_ENTRY];
    assert !Dropped(v, level, input, 0, snapshot) && !Dropped(v, level, input, 1, snapshot);
    assert Kept(v, level, input, snapshot, 1) == [] + [NEW_ENTRY];
  }

  lemma {:induction false} SingleEntryFiles(files: seq<TableFile>)
    requires forall f :: f in files ==> |f.entries| == 1
    ensures |Concat(files)| == |files|
    ensures forall i :: 0 <= i < |files| ==> files[i].entries == [Concat(files)[i]]
  {
    if files != [] {
      var n := |files| - 1;
      assert files[n] in files;
      SingleEntryFiles(files[..n]);
    }
  }

  /** While a snapshot between the two writes is live, a compaction keeps both and may close its
      output between them. */
  method SplitByCompaction() returns (outputs: seq<TableFile>)
    ensures |outputs| == 2 && outputs[0].entries == [NEW_ENTRY] && outputs[1].entries == [OLD_ENTRY]
    ensures outputs[0].number < outputs[1].number
  {
    var v: Version := [[Together()], [], [], [], [], [], []];
    var size := (entries: seq<Entry>) => |entries|;
    var job := new CompactionJob(v, Inputs(0, [Together()], [], []), 3, 1, 0, size, 2);
    job.Run([NEW_ENTRY, OLD_ENTRY]);
    outputs := job.outputs;
    BothSurvive(v, 0, 3);
    forall f | f in outputs ensures |f.entries| == 1 {
      var n := if |f.entries| > 1 then 1 else 0;
      assert size(f.entries[..n]) == n;
    }
    SingleEntryFiles(outputs);
  }

  // ----- What compacting half of it does -----

  ghost predicate Halves(v: Version, a: TableFile, b: TableFile, first: Entry) {
    && v[1] == [a, b] && (forall l :: 0 <= l < NUM_LEVELS && l != 1 ==> v[l] == [])
    && a.number != b.number && a.entries == [first] && b.entries == [OLD_ENTRY]
  }

  lemma HalvesEntries(v: Version, a: TableFile, b: TableFile, first: Entry)
    requires Halves(v, a, b, first)
    ensures LevelEntries(v[1]) == {first, OLD_ENTRY} && VersionEntries(v) == {first, OLD_ENTRY}
    ensures forall l :: 0 <= l < NUM_LEVELS && l != 1 ==> LevelEntries(v[l]) == {}
  {
    forall l | 0 <= l < NUM_LEVELS && l != 1 ensures LevelEntries(v[l]) == {} {
    }
    assert a in v[1] && b in v[1] && first in a.entries && OLD_ENTRY in b.entries;
  }

  lemma HalvesAreInOrder(v: Version, a: TableFile, b: TableFile, first: Entry)
    requires Halves(v, a, b, first) && first in {NEW_ENTRY, TOMBSTONE}
    ensures forall l :: 0 <= l < NUM_LEVELS ==> Ordered(v[l]) && InKeyOrder(ToSet(v[l]))
    ensures AllFiles(v) == {a, b} && Identified(AllFiles(v)) && !Disjoint(ToSet(v[1]))
  {
    assert Lt(a.Largest(), b.Smallest()) && !Apart(a, b);
    assert a in v[1] && b in v[1];
  }

  lemma OneLevelIsAged(v: Version)
    requires forall l :: 0 <= l < NUM_LEVELS && l != 1 ==> v[l] == []
    ensures AgedByLevel(v) && AgedByNumber(ToSet(v[0]))
  {
    hide NewerFile;
  }

  lemma PartsMakeShape(v: Version)
    requires forall l :: 0 <= l < NUM_LEVELS ==> Ordered(v[l]) && InKeyOrder(ToSet(v[l]))
    requires Identified(AllFiles(v)) && AgedByNumber(ToSet(v[0])) && AgedByLevel(v) && !Disjoint(ToSet(v[1]))
    ensures WellShaped(v) && !Clean(v)
  {
    hide Ordered, InKeyOrder, Identified, AllFiles, AgedByNumber, AgedByLevel, Disjoint;
  }

  lemma HalvesAreDistinct(v: Version, a: TableFile, b: TableFile, first: Entry)
    requires Halves(v, a, b, first) && first in {NEW_ENTRY, TOMBSTONE}
    ensures Distinct(VersionEntries(v))
  {
    HalvesEntries(v, a, b, first);
    hide VersionEntries, LevelEntries, Halves;
  }

  lemma HalvesAreWellShaped(v: Version, a: TableFile, b: TableFile, first: Entry)
    requires Halves(v, a, b, first) && first in {NEW_ENTRY, TOMBSTONE}
    ensures WellShaped(v) && Distinct(VersionEntries(v)) && !Clean(v)
  {
    assert forall l :: 0 <= l < NUM_LEVELS && l != 1 ==> v[l] == [];
    hide *;
    HalvesAreDistinct(v, a, b, first);
    HalvesAreInOrder(v, a, b, first);
    OneLevelIsAged(v);
    PartsMakeShape(v);
  }

  lemma HalfIsGoodInput(v: Version, a: TableFile, b: TableFile, first: Entry)
    requires Halves(v, a, b, first) && first in {NEW_ENTRY, TOMBSTONE}
    ensures GoodInputs(v, Inputs(1, [a], [], [])) && LeavesBehind(v, Inputs(1, [a], [], []), a, b)
    ensures !NoneGoesOn(v, Inputs(1, [a], [], []))
  {
    assert v[2] == [];
    assert a in v[1] && b in v[1] && b !in [a] && GoesOn(a, b);
  }

  lemma MovedHalfEntries(w: Version, a: TableFile, b: TableFile)
    requires w[0] == [] && w[1] == [b] && w[2] == [a] && a.entries == [NEW_ENTRY] && b.entries == [OLD_ENTRY]
    ensures LevelEntries(w[0]) == {} && LevelEntries(w[1]) == {OLD_ENTRY}
  {
    assert w[0] == [] && b in w[1] && OLD_ENTRY in b.entries;
  }

  /** After the newer half has been moved down, a reader of the latest data is given the older value. */
  lemma MovedHalfIsStale(v: Version, w: Version, a: TableFile, b: TableFile, l: Lookup)
    requires Halves(v, a, b, NEW_ENTRY) && w[0] == [] && w[1] == [b] && w[2] == [a]
    ensures Visible(VersionEntries(v), U, 5) == Some("new")
    ensures LookupReports(w, U, 5, l) ==> l == Found("old")
  {
    HalvesEntries(v, a, b, NEW_ENTRY);
    MovedHalfEntries(w, a, b);
    NewestOfBoth();
    hide *;
    if LookupReports(w, U, 5, l) {
      FoundAtLevel1(w, l);
    }
  }

  lemma NewestOfBoth()
    ensures Visible({NEW_ENTRY, OLD_ENTRY}, U, 5) == Some("new")
  {
    VisibleIs({NEW_ENTRY, OLD_ENTRY}, U, 5, NEW_ENTRY);
  }

  lemma FoundAtLevel1(w: Version, l: Lookup)
    requires LevelEntries(w[0]) == {} && LevelEntries(w[1]) == {OLD_ENTRY} && LookupReports(w, U, 5, l)
    ensures l == Found("old")
  {
    hide LevelEntries;
    assert Candidate(OLD_ENTRY, U, 5);
    assert forall level :: 2 <= level <= NUM_LEVELS ==> !NothingAbove(w, level, U, 5);
    var e :| LookupFinds(w, U, 5, e) && l == ToLookup(e);
    var level :| 0 <= level < NUM_LEVELS && NothingAbove(w, level, U, 5) && IsNewest(LevelEntries(w[level]), U, 5, e);
    assert level == 1;
  }

  /** A deletion compacted alone vanishes, although the level it leaves still holds what it deleted. */
  lemma LostTombstone(v: Version, a: TableFile, b: TableFile)
    requires Halves(v, a, b, TOMBSTONE)
    ensures var rest := RestEntries(v, Inputs(1, [a], [], []));
            && Uncovers(v, 1, rest, [TOMBSTONE], 5)
            && Visible(rest + ToSet([TOMBSTONE]), U, 5) == None
            && Visible(rest + ToSet(Kept(v, 1, [TOMBSTONE], 5, 1)), U, 5) == Some("old")
  {
    var rest := RestEntries(v, Inputs(1, [a], [], []));
    HalvesRest(v, a, b);
    hide RestEntries;
    assert BaseLevel(v, 1, U) by {
      assert forall l :: 3 <= l < NUM_LEVELS ==> v[l] == [];
    }
    assert IsNewest(rest + ToSet([TOMBSTONE]), U, 5, TOMBSTONE) && IsNewest(rest, U, 5, OLD_ENTRY);
    assert Uncovered(v, 1, rest, [TOMBSTONE], 5, TOMBSTONE, OLD_ENTRY);
    UncoveredRead(v, 1, rest, [TOMBSTONE], 5, TOMBSTONE, OLD_ENTRY);
  }

  lemma HalvesRest(v: Version, a: TableFile, b: TableFile)
    requires Halves(v, a, b, TOMBSTONE)
    ensures RestEntries(v, Inputs(1, [a], [], [])) == {OLD_ENTRY}
  {
    var c := Inputs(1, [a], [], []);
    assert b in v[1] && !IsInput(c, 1, b) && OLD_ENTRY in b.entries;
    forall l, f | 0 <= l < NUM_LEVELS && f in v[l] && !IsInput(c, l, f) ensures f == b {
      assert l == 1;
    }
  }
}
