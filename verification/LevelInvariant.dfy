/** What every version keeps: the files of a level above 0 follow one another in key order, newer data
    sits at smaller levels, and level 0 is aged by file number.  A user key may span two files of a
    level.  Flushes preserve all this; moves and compactions do exactly when they leave no file
    behind that goes on with a user key of theirs. */
module LevelInvariant {
  import opened Entries
  import opened Versions
  import opened VersionBuilder
  import opened CompactionInputs
  import opened Compactions

  predicate Apart(f: TableFile, g: TableFile) {
    f.Largest().user < g.Smallest().user || g.Largest().user < f.Smallest().user
  }

  /** The files of a level share no user key, nor do their ranges meet. */
  ghost predicate Disjoint(files: set<TableFile>) {
    forall f, g :: f in files && g in files && f != g ==> Apart(f, g)
  }

  /** No file of the set reaches into another; two may meet within a user key. */
  ghost predicate InKeyOrder(files: set<TableFile>) {
    forall f, g :: f in files && g in files && f != g ==> Lt(f.Largest(), g.Smallest()) || Lt(g.Largest(), f.Smallest())
  }

  ghost predicate NewerFile(f: TableFile, g: TableFile) {
    Newer(ToSet(f.entries), ToSet(g.entries))
  }

  ghost predicate AgedByNumber(files: set<TableFile>) {
    forall f, g :: f in files && g in files && f.number > g.number ==> NewerFile(f, g)
  }

  /** Age order stated file by file. */
  ghost predicate AgedByLevel(v: Version) {
    forall i, j, f, g :: 0 <= i < j < NUM_LEVELS && f in v[i] && g in v[j] ==> NewerFile(f, g)
  }

  lemma AgedByLevelIsAgeOrdered(v: Version)
    ensures AgedByLevel(v) <==> AgeOrdered(v)
  {
    if AgedByLevel(v) {
      forall i, j, e, o | 0 <= i < j < NUM_LEVELS && e in LevelEntries(v[i]) && o in LevelEntries(v[j]) && e.k.user == o.k.user
        ensures e.k.seqno > o.k.seqno
      {
        var f :| f in v[i] && e in f.entries;
        var g :| g in v[j] && o in g.entries;
        assert NewerFile(f, g);
      }
    }
    if AgeOrdered(v) {
      forall i, j, f, g | 0 <= i < j < NUM_LEVELS && f in v[i] && g in v[j] ensures NewerFile(f, g) {
        assert Newer(LevelEntries(v[i]), LevelEntries(v[j]));
        assert ToSet(f.entries) <= LevelEntries(v[i]) && ToSet(g.entries) <= LevelEntries(v[j]);
      }
    }
  }

  ghost function AllFiles(v: Version): (r: set<TableFile>)
    ensures forall l, f :: 0 <= l < NUM_LEVELS && f in v[l] ==> f in r
  {
    set l, f | 0 <= l < NUM_LEVELS && f in v[l] :: f
  }

  ghost predicate WellShaped(v: Version) {
    && (forall l :: 0 <= l < NUM_LEVELS ==> Ordered(v[l]))
    && Identified(AllFiles(v))
    && (forall l :: 1 <= l < NUM_LEVELS ==> InKeyOrder(ToSet(v[l])))
    && AgedByNumber(ToSet(v[0]))
    && AgedByLevel(v)
  }

  /** No user key spans two files of a level. */
  ghost predicate Clean(v: Version) {
    forall l :: 1 <= l < NUM_LEVELS ==> Disjoint(ToSet(v[l]))
  }

  lemma WellShapedIsSearchable(v: Version)
    requires WellShaped(v)
    ensures Searchable(v)
    ensures Clean(v) ==> forall l :: 1 <= l < NUM_LEVELS ==> CleanCut(v[l])
  {
    forall l | 1 <= l < NUM_LEVELS ensures SortedLevel(v[l]) && (Clean(v) ==> CleanCut(v[l])) {
      OrderedInKeyOrderIsSorted(v[l]);
      if Clean(v) {
        OrderedDisjointIsClean(v[l]);
      }
    }
    AgedByLevelIsAgeOrdered(v);
    assert Level0Age(v[0]) by {
      assert forall f, g :: f in v[0] && g in v[0] && f.number > g.number ==> NewerFile(f, g);
      forall i, j | 0 <= i < j < |v[0]| ensures v[0][i].number != v[0][j].number {
        assert BySmallest(v[0][i], v[0][j]);
        assert v[0][i] in AllFiles(v) && v[0][j] in AllFiles(v);
      }
    }
  }

  lemma OrderedInKeyOrderIsSorted(files: seq<TableFile>)
    requires Ordered(files) && InKeyOrder(ToSet(files))
    ensures SortedLevel(files)
  {
    forall i, j | 0 <= i < j < |files| ensures Lt(files[i].Largest(), files[j].Smallest()) {
      var f, g := files[i], files[j];
      assert BySmallest(f, g) && f in ToSet(files) && g in ToSet(files);
      FileBounds(f, f.entries[0]);
      FileBounds(g, g.entries[0]);
    }
  }

  lemma OrderedDisjointIsClean(files: seq<TableFile>)
    requires Ordered(files) && Disjoint(ToSet(files))
    ensures CleanCut(files)
  {
    forall i, j | 0 <= i < j < |files| ensures files[i].Largest().user < files[j].Smallest().user {
      var f, g := files[i], files[j];
      assert BySmallest(f, g) && f in ToSet(files) && g in ToSet(files);
      FileBounds(f, f.entries[0]);
      FileBounds(g, g.entries[0]);
      assert Apart(f, g);
    }
  }

  // ----- Flushing a memtable -----

  /** `w` is `v` with one more file at `level`. */
  ghost predicate FileAdded(v: Version, w: Version, level: nat, f: TableFile)
    requires level < NUM_LEVELS
  {
    forall l :: 0 <= l < NUM_LEVELS ==>
      Ordered(w[l]) && ToSet(w[l]) == ToSet(v[l]) + (if l == level then {f} else {})
  }

  /** What `PickLevelForMemTableOutput` guarantees about the level it picks. */
  ghost predicate ClearDownTo(v: Version, level: nat, f: TableFile)
    requires level < NUM_LEVELS
  {
    level > 0 ==> forall l :: 0 <= l <= level ==> !LevelOverlaps(v, l, f.Smallest().user, f.Largest().user)
  }

  lemma ClearMeansApart(v: Version, level: nat, f: TableFile, l: nat, g: TableFile)
    requires level < NUM_LEVELS && 0 < level && l <= level && ClearDownTo(v, level, f) && g in v[l]
    ensures Apart(f, g)
  {
    assert !LevelOverlaps(v, l, f.Smallest().user, f.Largest().user);
    assert !Overlaps(g, Some(f.Smallest().user), Some(f.Largest().user));
  }

  lemma ApartShareNothing(f: TableFile, g: TableFile)
    requires Apart(f, g)
    ensures NewerFile(f, g) && NewerFile(g, f)
  {
    forall e, o | e in ToSet(f.entries) && o in ToSet(g.entries) ensures e.k.user != o.k.user {
      FileBounds(f, e);
      FileBounds(g, o);
    }
  }

  lemma FlushKeepsShape(v: Version, w: Version, level: nat, f: TableFile)
    requires WellShaped(v) && level < NUM_LEVELS && FileAdded(v, w, level, f) && ClearDownTo(v, level, f)
    requires forall g :: g in AllFiles(v) ==> g.number < f.number && NewerFile(f, g)
    ensures WellShaped(w)
  {
    assert forall l, g :: 0 <= l < NUM_LEVELS && g in w[l] ==> g in ToSet(w[l]) && (g in v[l] || (l == level && g == f));
    assert forall g :: g in AllFiles(w) ==> g == f || g in AllFiles(v);
    forall l | 1 <= l < NUM_LEVELS ensures InKeyOrder(ToSet(w[l])) {
      if l == level {
        forall g | g in v[l] ensures Apart(f, g) {
          ClearMeansApart(v, level, f, l, g);
        }
      }
    }
    forall i, j, g, h | 0 <= i < j < NUM_LEVELS && g in w[i] && h in w[j] ensures NewerFile(g, h) {
      if h !in v[j] {
        assert g in v[i];
        ClearMeansApart(v, level, f, i, g);
        ApartShareNothing(f, g);
      }
    }
  }

  lemma FileAddedEntries(v: Version, w: Version, level: nat, f: TableFile)
    requires level < NUM_LEVELS && FileAdded(v, w, level, f)
    ensures VersionEntries(w) == VersionEntries(v) + ToSet(f.entries)
  {
    assert forall l, g :: 0 <= l < NUM_LEVELS ==> (g in w[l] <==> g in ToSet(w[l]));
    assert f in w[level] && forall e :: e in f.entries ==> e in LevelEntries(w[level]);
    forall e | e in VersionEntries(w) ensures e in VersionEntries(v) + ToSet(f.entries) {
      var l :| 0 <= l < NUM_LEVELS && e in LevelEntries(w[l]);
      var g :| g in w[l] && e in g.entries;
      if g in v[l] {
        assert e in LevelEntries(v[l]);
      }
    }
    forall e | e in VersionEntries(v) ensures e in VersionEntries(w) {
      var l :| 0 <= l < NUM_LEVELS && e in LevelEntries(v[l]);
      var g :| g in v[l] && e in g.entries;
      assert g in ToSet(w[l]) && e in LevelEntries(w[l]);
    }
  }

  // ----- Compacting -----

  predicate IsInput(c: Inputs, l: nat, f: TableFile) {
    (l == c.level && f in c.in0) || (l == c.level + 1 && f in c.in1)
  }

  /** Every entry of an output comes from an input. */
  ghost predicate DrawnFrom(c: Inputs, outs: set<TableFile>) {
    forall o, e :: o in outs && e in o.entries ==> exists f :: f in c.in0 + c.in1 && e in f.entries
  }

  /** `w` is `v` with the inputs taken out and the outputs put into the next level. */
  ghost predicate Replaced(v: Version, w: Version, c: Inputs, outs: set<TableFile>) {
    forall l :: 0 <= l < NUM_LEVELS ==>
      && Ordered(w[l])
      && forall f :: f in w[l] <==> (f in v[l] && !IsInput(c, l, f)) || (l == c.level + 1 && f in outs)
  }

  /** An input of the next level reaches over the range of the others, so it lies where they lie. */
  lemma SameSideAsInputs(v: Version, c: Inputs, g: TableFile, h: TableFile)
    requires WellShaped(v) && GoodInputs(v, c) && g in v[c.level + 1] && g !in c.in1 && h in c.in1
    ensures (forall f :: f in c.in0 ==> g.Largest().user < f.Smallest().user) ==> Lt(g.Largest(), h.Smallest())
    ensures (forall f :: f in c.in0 ==> f.Largest().user < g.Smallest().user) ==> Lt(h.Largest(), g.Smallest())
  {
    assert TouchesHull(h, c.in0);
    assert h in ToSet(v[c.level + 1]) && g in ToSet(v[c.level + 1]);
    FileBounds(g, g.entries[0]);
    FileBounds(h, h.entries[0]);
    hide WellShaped, GoodInputs, TouchesHull;
  }

  /** A file of the next level that is no input lies wholly to one side of all inputs. */
  lemma OutsideIsToOneSide(v: Version, c: Inputs, g: TableFile)
    requires WellShaped(v) && GoodInputs(v, c) && g in v[c.level + 1] && g !in c.in1
    ensures (forall f :: f in c.in0 + c.in1 ==> Lt(g.Largest(), f.Smallest()))
         || (forall f :: f in c.in0 + c.in1 ==> Lt(f.Largest(), g.Smallest()))
    ensures forall f :: f in c.in0 ==> Apart(f, g)
  {
    FileBounds(g, g.entries[0]);
    assert !TouchesHull(g, c.in0);
    hide WellShaped, GoodInputs;
    forall h | h in c.in1
      ensures (forall f :: f in c.in0 ==> g.Largest().user < f.Smallest().user) ==> Lt(g.Largest(), h.Smallest())
      ensures (forall f :: f in c.in0 ==> f.Largest().user < g.Smallest().user) ==> Lt(h.Largest(), g.Smallest())
    {
      SameSideAsInputs(v, c, g, h);
    }
    if f :| f in c.in0 && f.Smallest().user <= g.Largest().user {
      assert forall h :: h in c.in0 ==> h.Largest().user < g.Smallest().user;
    } else {
      assert forall h :: h in c.in0 ==> g.Largest().user < h.Smallest().user;
    }
  }

  /** `g` goes on with the user key that `f` ends with. */
  predicate GoesOn(f: TableFile, g: TableFile) {
    f.Largest().user == g.Smallest().user && Lt(f.Largest(), g.Smallest())
  }

  /** Of two files of a level in key order, the first is the newer one; so is the second unless it
      goes on with the last user key of the first. */
  lemma InOrderIsNewer(files: set<TableFile>, entries: set<Entry>, f: TableFile, g: TableFile)
    requires InKeyOrder(files) && f in files && g in files && f != g
    requires Distinct(entries) && ToSet(f.entries) <= entries && ToSet(g.entries) <= entries
    ensures Lt(f.Largest(), g.Smallest()) ==> NewerFile(f, g)
    ensures !GoesOn(f, g) ==> NewerFile(g, f)
  {
    forall e, o | e in ToSet(f.entries) && o in ToSet(g.entries) && e.k.user == o.k.user
      ensures Lt(f.Largest(), g.Smallest()) ==> e.k.seqno > o.k.seqno
      ensures !GoesOn(f, g) ==> o.k.seqno > e.k.seqno
    {
      FileBounds(f, e);
      FileBounds(g, o);
      assert e in entries && o in entries;
    }
  }

  lemma FileWithinVersion(v: Version, g: TableFile)
    requires g in AllFiles(v)
    ensures ToSet(g.entries) <= VersionEntries(v)
  {
    var l :| 0 <= l < NUM_LEVELS && g in v[l];
    forall e | e in g.entries ensures e in VersionEntries(v) {
      assert e in LevelEntries(v[l]);
    }
  }

  lemma SameLevelNewer(v: Version, l: nat, f: TableFile, g: TableFile)
    requires WellShaped(v) && Distinct(VersionEntries(v)) && 0 < l < NUM_LEVELS
    requires f in v[l] && g in v[l] && f != g && !GoesOn(f, g)
    ensures NewerFile(g, f)
  {
    FileWithinVersion(v, f);
    FileWithinVersion(v, g);
    InOrderIsNewer(ToSet(v[l]), VersionEntries(v), f, g);
  }

  lemma NextLevelOthersNewer(v: Version, c: Inputs, g: TableFile, f: TableFile)
    requires WellShaped(v) && Distinct(VersionEntries(v)) && GoodInputs(v, c)
    requires g in v[c.level + 1] && g !in c.in1 && f in c.in0 + c.in1
    requires f in c.in1 ==> !GoesOn(f, g)
    ensures NewerFile(g, f)
  {
    assert f in c.in1 ==> f in v[c.level + 1];
    hide WellShaped, GoodInputs, NewerFile, VersionEntries, Distinct;
    if f in c.in0 {
      OutsideIsToOneSide(v, c, g);
      ApartShareNothing(f, g);
    } else {
      SameLevelNewer(v, c.level + 1, f, g);
    }
  }

  lemma OwnLevelOthersNewer(v: Version, c: Inputs, g: TableFile, f: TableFile)
    requires WellShaped(v) && Distinct(VersionEntries(v)) && GoodInputs(v, c)
    requires g in v[c.level] && g !in c.in0 && f in c.in0
    requires c.level > 0 ==> !GoesOn(f, g)
    ensures NewerFile(g, f)
  {
    assert f in v[c.level] && (c.level == 0 ==> !TouchesHull(g, c.in0));
    hide WellShaped, GoodInputs, NewerFile, VersionEntries, Distinct;
    if c.level == 0 {
      ApartShareNothing(f, g);
    } else {
      SameLevelNewer(v, c.level, f, g);
    }
  }

  /** Outside the inputs, down to the next level, a file is newer than an input unless it goes on with
      a user key of that input at the same level. */
  lemma OthersAreNewer(v: Version, c: Inputs, l: nat, g: TableFile, f: TableFile)
    requires WellShaped(v) && Distinct(VersionEntries(v)) && GoodInputs(v, c)
    requires l <= c.level + 1 && g in v[l] && !IsInput(c, l, g) && f in c.in0 + c.in1
    requires l > 0 && ((l == c.level && f in c.in0) || (l == c.level + 1 && f in c.in1)) ==> !GoesOn(f, g)
    ensures NewerFile(g, f)
  {
    assert AgedByLevel(v) && f in v[if f in c.in0 then c.level else c.level + 1];
    hide WellShaped, GoodInputs, NewerFile, VersionEntries, Distinct;
    if l == c.level + 1 {
      NextLevelOthersNewer(v, c, g, f);
    } else if l == c.level && f in c.in0 {
      OwnLevelOthersNewer(v, c, g, f);
    }
  }

  lemma OutputWithinInputs(c: Inputs, outs: set<TableFile>, o: TableFile)
    requires DrawnFrom(c, outs) && o in outs
    ensures exists f :: f in c.in0 + c.in1 && !Lt(o.Smallest(), f.Smallest())
    ensures exists f :: f in c.in0 + c.in1 && !Lt(f.Largest(), o.Largest())
  {
    var first, last := o.entries[0], o.entries[|o.entries| - 1];
    assert first in o.entries && last in o.entries;
    var f :| f in c.in0 + c.in1 && first in f.entries;
    FileBounds(f, first);
    var g :| g in c.in0 + c.in1 && last in g.entries;
    FileBounds(g, last);
  }

  lemma OutputsApartFromOthers(v: Version, c: Inputs, outs: set<TableFile>, g: TableFile, o: TableFile)
    requires WellShaped(v) && GoodInputs(v, c) && DrawnFrom(c, outs)
    requires g in v[c.level + 1] && g !in c.in1 && o in outs
    ensures Lt(g.Largest(), o.Smallest()) || Lt(o.Largest(), g.Smallest())
  {
    OutsideIsToOneSide(v, c, g);
    OutputWithinInputs(c, outs, o);
  }

  /** No file is left behind at the inputs' level that goes on with a user key of what is moved down. */
  ghost predicate LeavesNoneBehind(v: Version, c: Inputs, outs: set<TableFile>)
    requires c.level < NUM_LEVELS
  {
    forall g, o, e :: g in v[c.level] && g !in c.in0 && o in outs && e in o.entries && e.k.user == g.Smallest().user
      ==> Lt(g.Smallest(), e.k)
  }

  lemma OthersNewerThanOutput(v: Version, c: Inputs, outs: set<TableFile>, i: nat, g: TableFile, o: TableFile)
    requires WellShaped(v) && Distinct(VersionEntries(v)) && GoodInputs(v, c) && DrawnFrom(c, outs)
    requires LeavesNoneBehind(v, c, outs)
    requires i <= c.level && g in v[i] && !IsInput(c, i, g) && o in outs
    ensures NewerFile(g, o)
  {
    hide WellShaped, GoodInputs, VersionEntries, Distinct;
    forall a, b | a in ToSet(g.entries) && b in ToSet(o.entries) && a.k.user == b.k.user ensures a.k.seqno > b.k.seqno {
      var f :| f in c.in0 + c.in1 && b in f.entries;
      if !(f in c.in0 && i == c.level && GoesOn(f, g)) {
        OthersAreNewer(v, c, i, g, f);
        assert b in ToSet(f.entries);
      } else {
        FileBounds(f, b);
        FileBounds(g, a);
        assert false;
      }
    }
  }

  lemma OutputsNewerThan(c: Inputs, outs: set<TableFile>, g: TableFile, o: TableFile)
    requires DrawnFrom(c, outs) && o in outs
    requires forall f :: f in c.in0 + c.in1 ==> NewerFile(f, g)
    ensures NewerFile(o, g)
  {
    forall a, b | a in ToSet(o.entries) && b in ToSet(g.entries) && a.k.user == b.k.user ensures a.k.seqno > b.k.seqno {
      var f :| f in c.in0 + c.in1 && a in f.entries;
      assert NewerFile(f, g) && a in ToSet(f.entries);
    }
  }

  lemma CompactionKeepsAge(v: Version, w: Version, c: Inputs, outs: set<TableFile>, i: nat, j: nat, g: TableFile, h: TableFile)
    requires WellShaped(v) && Distinct(VersionEntries(v)) && GoodInputs(v, c) && DrawnFrom(c, outs) && Replaced(v, w, c, outs)
    requires LeavesNoneBehind(v, c, outs)
    requires i < j < NUM_LEVELS && g in w[i] && h in w[j]
    ensures NewerFile(g, h)
  {
    if j == c.level + 1 && h in outs {
      assert g in v[i] && !IsInput(c, i, g);
      OthersNewerThanOutput(v, c, outs, i, g, h);
    } else if i == c.level + 1 && g in outs {
      assert h in v[j];
      forall f | f in c.in0 + c.in1 ensures NewerFile(f, h) {
        assert f in v[if f in c.in0 then c.level else c.level + 1];
      }
      OutputsNewerThan(c, outs, h, g);
    } else {
      assert g in v[i] && h in v[j];
    }
  }

  /** A compaction keeps the shape of a version if and only if it leaves no file behind that goes on
      with a user key of what it moves down. */
  lemma CompactionKeepsShape(v: Version, w: Version, c: Inputs, outs: set<TableFile>)
    requires WellShaped(v) && Distinct(VersionEntries(v)) && GoodInputs(v, c) && DrawnFrom(c, outs) && Replaced(v, w, c, outs)
    requires InKeyOrder(outs) && Identified(AllFiles(v) + outs)
    ensures WellShaped(w) <==> LeavesNoneBehind(v, c, outs)
  {
    assert AllFiles(w) <= AllFiles(v) + outs;
    if LeavesNoneBehind(v, c, outs) {
      forall i, j, g, h | 0 <= i < j < NUM_LEVELS && g in w[i] && h in w[j] ensures NewerFile(g, h) {
        CompactionKeepsAge(v, w, c, outs, i, j, g, h);
      }
      CompactionKeepsOrder(v, w, c, outs);
      assert forall f :: f in w[0] ==> f in ToSet(v[0]);
    }
    if AgedByLevel(w) {
      OlderBelowLeavesNone(v, w, c, outs);
    }
  }

  lemma OlderBelowLeavesNone(v: Version, w: Version, c: Inputs, outs: set<TableFile>)
    requires GoodInputs(v, c) && Replaced(v, w, c, outs) && AgedByLevel(w)
    ensures LeavesNoneBehind(v, c, outs)
  {
    forall g, o, e | g in v[c.level] && g !in c.in0 && o in outs && e in o.entries && e.k.user == g.Smallest().user
      ensures Lt(g.Smallest(), e.k)
    {
      assert g in w[c.level] && o in w[c.level + 1];
      assert NewerFile(g, o) && g.entries[0] in ToSet(g.entries) && e in ToSet(o.entries);
    }
  }

  lemma CompactionKeepsOrder(v: Version, w: Version, c: Inputs, outs: set<TableFile>)
    requires WellShaped(v) && GoodInputs(v, c) && DrawnFrom(c, outs) && Replaced(v, w, c, outs) && InKeyOrder(outs)
    ensures forall l :: 1 <= l < NUM_LEVELS ==> InKeyOrder(ToSet(w[l]))
  {
    forall l, f, g | 1 <= l < NUM_LEVELS && f in w[l] && g in w[l] && f != g
      ensures Lt(f.Largest(), g.Smallest()) || Lt(g.Largest(), f.Smallest())
    {
      if f in v[l] && !IsInput(c, l, f) {
        if g in v[l] && !IsInput(c, l, g) {
          assert f in ToSet(v[l]) && g in ToSet(v[l]);
        } else {
          OutputsApartFromOthers(v, c, outs, f, g);
        }
      } else if g in v[l] && !IsInput(c, l, g) {
        OutputsApartFromOthers(v, c, outs, g, f);
      }
    }
  }

  // ----- What a compaction reads and leaves -----

  ghost function RestEntries(v: Version, c: Inputs): set<Entry> {
    set l, f, e | 0 <= l < NUM_LEVELS && f in v[l] && !IsInput(c, l, f) && e in f.entries :: e
  }

  ghost function InputEntries(c: Inputs): set<Entry> {
    FileSetEntries(ToSet(c.in0 + c.in1))
  }

  lemma SplitEntries(v: Version, w: Version, c: Inputs, outs: set<TableFile>)
    requires GoodInputs(v, c) && Replaced(v, w, c, outs)
    ensures VersionEntries(v) == RestEntries(v, c) + InputEntries(c)
    ensures VersionEntries(w) == RestEntries(v, c) + FileSetEntries(outs)
  {
    forall e | e in VersionEntries(v) ensures e in RestEntries(v, c) + InputEntries(c) {
      var l :| 0 <= l < NUM_LEVELS && e in LevelEntries(v[l]);
      var f :| f in v[l] && e in f.entries;
      if IsInput(c, l, f) {
        assert f in c.in0 + c.in1;
      }
    }
    forall e | e in InputEntries(c) ensures e in VersionEntries(v) {
      var f :| f in c.in0 + c.in1 && e in f.entries;
      var l := if f in c.in0 then c.level else c.level + 1;
      assert f in v[l] && e in LevelEntries(v[l]);
    }
    forall e | e in VersionEntries(w) ensures e in RestEntries(v, c) + FileSetEntries(outs) {
      var l :| 0 <= l < NUM_LEVELS && e in LevelEntries(w[l]);
      var f :| f in w[l] && e in f.entries;
    }
    forall e | e in RestEntries(v, c) ensures e in VersionEntries(v) && e in VersionEntries(w) {
      var l, f :| 0 <= l < NUM_LEVELS && f in v[l] && !IsInput(c, l, f) && e in f.entries;
      assert f in w[l] && e in LevelEntries(w[l]) && e in LevelEntries(v[l]);
    }
    forall e | e in FileSetEntries(outs) ensures e in VersionEntries(w) {
      var f :| f in outs && e in f.entries;
      assert f in w[c.level + 1] && e in LevelEntries(w[c.level + 1]);
    }
  }

  lemma BaseLevelHasNothingDeeper(v: Version, level: nat, l: nat, g: TableFile, e: Entry)
    requires l < NUM_LEVELS && g in v[l] && e in g.entries && BaseLevel(v, level, e.k.user)
    ensures l < level + 2
  {
    FileBounds(g, e);
    var i :| 0 <= i < |v[l]| && v[l][i] == g;
    assert InRange(v[l][i], e.k.user);
  }

  /** No file outside the inputs goes on with a user key that an input of its level ends with. */
  ghost predicate NoneGoesOn(v: Version, c: Inputs)
    requires c.level + 1 < NUM_LEVELS
  {
    && (c.level > 0 ==> forall f, g :: f in c.in0 && g in v[c.level] && g !in c.in0 ==> !GoesOn(f, g))
    && forall f, g :: f in c.in1 && g in v[c.level + 1] && g !in c.in1 ==> !GoesOn(f, g)
  }

  lemma RestFileIsNewer(v: Version, c: Inputs, l: nat, g: TableFile, f: TableFile, e: Entry, o: Entry)
    requires WellShaped(v) && Distinct(VersionEntries(v)) && GoodInputs(v, c) && NoneGoesOn(v, c)
    requires l < NUM_LEVELS && g in v[l] && !IsInput(c, l, g) && e in g.entries
    requires f in c.in0 + c.in1 && o in f.entries && e.k.user == o.k.user && BaseLevel(v, c.level, e.k.user)
    ensures e.k.seqno > o.k.seqno
  {
    BaseLevelHasNothingDeeper(v, c.level, l, g, e);
    hide WellShaped, GoodInputs, VersionEntries, Distinct, BaseLevel;
    OthersAreNewer(v, c, l, g, f);
    assert e in ToSet(g.entries) && o in ToSet(f.entries);
  }

  /** The hypothesis under which the drop rules are safe holds of every compaction of that kind. */
  lemma RestOfVersionIsNewer(v: Version, c: Inputs, input: seq<Entry>)
    requires WellShaped(v) && Distinct(VersionEntries(v)) && GoodInputs(v, c) && NoneGoesOn(v, c)
    requires ToSet(input) == InputEntries(c)
    ensures RestIsNewerUnlessDeeper(v, c.level, RestEntries(v, c), input)
  {
    forall e, o | e in RestEntries(v, c) && o in input && e.k.user == o.k.user && BaseLevel(v, c.level, e.k.user)
      ensures e.k.seqno > o.k.seqno
    {
      assert o in InputEntries(c);
      var l, g :| 0 <= l < NUM_LEVELS && g in v[l] && !IsInput(c, l, g) && e in g.entries;
      var f :| f in c.in0 + c.in1 && o in f.entries;
      RestFileIsNewer(v, c, l, g, f, e, o);
    }
  }
}
