/** Range overlap, placement of flushed memtables and the choice of compaction inputs. */
module CompactionInputs {
  import opened Entries
  import opened Versions

  /** `None` stands for an open end of a key range. */
  type Bound = Option<UserKey>

  predicate AfterFile(u: Bound, f: TableFile) {
    u.Some? && u.value > f.Largest().user
  }

  predicate BeforeFile(u: Bound, f: TableFile) {
    u.Some? && u.value < f.Smallest().user
  }

  predicate Overlaps(f: TableFile, begin: Bound, end: Bound) {
    !AfterFile(begin, f) && !BeforeFile(end, f)
  }

  method SomeFileOverlapsRange(disjointSorted: bool, files: seq<TableFile>, smallest: Bound, largest: Bound)
    returns (b: bool)
    requires disjointSorted ==> SortedLevel(files)
    ensures b <==> exists f :: f in files && Overlaps(f, smallest, largest)
  {
    if !disjointSorted {
      for i := 0 to |files|
        invariant forall j :: 0 <= j < i ==> !Overlaps(files[j], smallest, largest)
      {
        if !(AfterFile(smallest, files[i]) || BeforeFile(largest, files[i])) {
          assert Overlaps(files[i], smallest, largest);
          return true;
        }
      }
      return false;
    }
    var index := 0;
    if smallest.Some? {
      index := FindFile(files, InternalKey(smallest.value, MAX_SEQUENCE, KIND_FOR_SEEK));
    }
    assert forall i :: 0 <= i < index ==> AfterFile(smallest, files[i]);
    if index >= |files| {
      return false;
    }
    b := !BeforeFile(largest, files[index]);
    assert !AfterFile(smallest, files[index]);
    if b {
      assert Overlaps(files[index], smallest, largest);
    } else {
      forall i | 0 <= i < |files| ensures !Overlaps(files[i], smallest, largest) {
        if index < i {
          LaterIsLarger(files, index, i, files[index].entries[0], files[i].entries[0]);
        }
      }
    }
  }

  // ----- Overlapping files -----

  function Overlapping(files: seq<TableFile>, begin: Bound, end: Bound): seq<TableFile> {
    if files == [] then [] else
      var n := |files| - 1;
      Overlapping(files[..n], begin, end) + (if Overlaps(files[n], begin, end) then [files[n]] else [])
  }

  ghost predicate NoDuplicates(files: seq<TableFile>) {
    forall i, j :: 0 <= i < j < |files| ==> files[i] != files[j]
  }

  lemma {:induction false} OverlappingNoDuplicates(files: seq<TableFile>, begin: Bound, end: Bound)
    requires NoDuplicates(files)
    ensures NoDuplicates(Overlapping(files, begin, end))
  {
    if files != [] {
      var n := |files| - 1;
      OverlappingNoDuplicates(files[..n], begin, end);
      OverlappingMembers(files[..n], begin, end);
      var r := Overlapping(files[..n], begin, end);
      forall i | 0 <= i < |r| ensures r[i] != files[n] {
        assert r[i] in files[..n];
      }
    }
  }

  lemma {:induction false} OverlappingMembers(files: seq<TableFile>, begin: Bound, end: Bound)
    ensures forall f :: f in Overlapping(files, begin, end) <==> f in files && Overlaps(f, begin, end)
  {
    if files != [] {
      var n := |files| - 1;
      assert files == files[..n] + [files[n]];
      OverlappingMembers(files[..n], begin, end);
    }
  }

  /** Some file of `s`, or the requested range itself, reaches down to `x`. */
  ghost predicate LowCovers(begin: Bound, s: set<TableFile>, x: UserKey) {
    begin.None? || begin.value <= x || exists f :: f in s && f.Smallest().user <= x
  }

  ghost predicate HighCovers(end: Bound, s: set<TableFile>, x: UserKey) {
    end.None? || x <= end.value || exists f :: f in s && x <= f.Largest().user
  }

  /** `s` holds every file that meets the requested range as widened by the files of `s`. */
  ghost predicate Closed(files: seq<TableFile>, begin: Bound, end: Bound, s: set<TableFile>) {
    forall g :: g in files && LowCovers(begin, s, g.Largest().user) && HighCovers(end, s, g.Smallest().user)
      ==> g in s
  }

  /** The files to be compacted for a range: those that meet it and, at level 0, the least set that holds
      these and is closed under widening. */
  ghost predicate AreMeeting(level0: bool, files: seq<TableFile>, begin: Bound, end: Bound, s: set<TableFile>) {
    if level0 then Closed(files, begin, end, s) && forall t :: Closed(files, begin, end, t) ==> s <= t
    else forall f :: f in s <==> f in files && Overlaps(f, begin, end)
  }

  /** Widening the range to `lo` and `hi` has not gone past any closed set. */
  ghost predicate WithinClosed(files: seq<TableFile>, begin: Bound, end: Bound, lo: Bound, hi: Bound) {
    forall s :: Closed(files, begin, end, s) ==>
      && (lo.Some? ==> LowCovers(begin, s, lo.value))
      && (hi.Some? ==> HighCovers(end, s, hi.value))
  }

  lemma MeetsMeansMember(files: seq<TableFile>, begin: Bound, end: Bound, lo: Bound, hi: Bound, f: TableFile, s: set<TableFile>)
    requires WithinClosed(files, begin, end, lo, hi) && Closed(files, begin, end, s)
    requires lo.Some? == begin.Some? && hi.Some? == end.Some?
    requires f in files && Overlaps(f, lo, hi)
    ensures f in s
  {
    assert LowCovers(begin, s, f.Largest().user);
    assert HighCovers(end, s, f.Smallest().user);
  }

  lemma WideningStaysWithin(files: seq<TableFile>, begin: Bound, end: Bound, lo: Bound, hi: Bound, f: TableFile)
    requires WithinClosed(files, begin, end, lo, hi)
    requires lo.Some? == begin.Some? && hi.Some? == end.Some?
    requires f in files && Overlaps(f, lo, hi)
    ensures WithinClosed(files, begin, end, Some(f.Smallest().user), hi)
    ensures WithinClosed(files, begin, end, lo, Some(f.Largest().user))
  {
    forall s | Closed(files, begin, end, s)
      ensures LowCovers(begin, s, f.Smallest().user) && HighCovers(end, s, f.Largest().user)
    {
      MeetsMeansMember(files, begin, end, lo, hi, f, s);
    }
  }

  lemma OverlapIsLeastClosed(files: seq<TableFile>, begin: Bound, end: Bound, lo: Bound, hi: Bound, r: seq<TableFile>)
    requires WithinClosed(files, begin, end, lo, hi)
    requires lo.Some? == begin.Some? && hi.Some? == end.Some?
    requires begin.Some? ==> lo.value <= begin.value
    requires end.Some? ==> end.value <= hi.value
    requires r == Overlapping(files, lo, hi) && Inside(r, lo, hi)
    ensures Closed(files, begin, end, ToSet(r))
    ensures forall s :: Closed(files, begin, end, s) ==> ToSet(r) <= s
  {
    OverlappingMembers(files, lo, hi);
    forall s, f | Closed(files, begin, end, s) && f in ToSet(r) ensures f in s {
      MeetsMeansMember(files, begin, end, lo, hi, f, s);
    }
  }

  ghost function StartingBelow(files: seq<TableFile>, lo: Bound): set<TableFile> {
    set f | f in files && lo.Some? && f.Smallest().user < lo.value
  }

  ghost function EndingAbove(files: seq<TableFile>, hi: Bound): set<TableFile> {
    set f | f in files && hi.Some? && f.Largest().user > hi.value
  }

  lemma WideningShrinks(files: seq<TableFile>, lo: Bound, hi: Bound, f: TableFile)
    requires f in files
    ensures lo.Some? && f.Smallest().user < lo.value ==>
              StartingBelow(files, Some(f.Smallest().user)) < StartingBelow(files, lo)
    ensures hi.Some? && f.Largest().user > hi.value ==>
              EndingAbove(files, Some(f.Largest().user)) < EndingAbove(files, hi)
  {
    assert f !in StartingBelow(files, Some(f.Smallest().user));
    assert f !in EndingAbove(files, Some(f.Largest().user));
    assert lo.Some? && f.Smallest().user < lo.value ==> f in StartingBelow(files, lo);
    assert hi.Some? && f.Largest().user > hi.value ==> f in EndingAbove(files, hi);
  }

  ghost predicate Inside(files: seq<TableFile>, lo: Bound, hi: Bound) {
    && (forall f :: f in files && lo.Some? ==> lo.value <= f.Smallest().user)
    && (forall f :: f in files && hi.Some? ==> f.Largest().user <= hi.value)
  }

  lemma OverlappingNone(files: seq<TableFile>)
    ensures forall lo, hi :: Overlapping(files[..0], lo, hi) == []
  {
  }

  lemma OverlappingStep(files: seq<TableFile>, i: nat, lo: Bound, hi: Bound)
    requires i < |files|
    ensures Overlapping(files[..i + 1], lo, hi) ==
            Overlapping(files[..i], lo, hi) + if Overlaps(files[i], lo, hi) then [files[i]] else []
  {
    assert files[..i + 1][..i] == files[..i];
  }

  lemma NothingInside(lo: Bound, hi: Bound)
    ensures Inside([], lo, hi)
  {
  }

  lemma OneMoreInside(files: seq<TableFile>, lo: Bound, hi: Bound, f: TableFile)
    requires Inside(files, lo, hi)
    ensures (lo.Some? ==> lo.value <= f.Smallest().user) && (hi.Some? ==> f.Largest().user <= hi.value) ==> Inside(files + [f], lo, hi)
  {
  }

  /** The first `i` files have been looked at with the range widened to `lo` and `hi`. */
  ghost predicate Searching(level0: bool, files: seq<TableFile>, begin: Bound, end: Bound, i: nat, inputs: seq<TableFile>, lo: Bound, hi: Bound) {
    && i <= |files| && inputs == Overlapping(files[..i], lo, hi)
    && (!level0 ==> lo == begin && hi == end)
    && (level0 ==> Inside(inputs, lo, hi) && WithinClosed(files, begin, end, lo, hi))
    && lo.Some? == begin.Some? && hi.Some? == end.Some?
    && (begin.Some? ==> lo.value <= begin.value) && (end.Some? ==> hi.value >= end.value)
  }

  lemma StartSearching(level0: bool, files: seq<TableFile>, begin: Bound, end: Bound)
    ensures Searching(level0, files, begin, end, 0, [], begin, end)
  {
    assert WithinClosed(files, begin, end, begin, end);
    OverlappingNone(files);
    NothingInside(begin, end);
  }

  /** Looks at one file; one that sticks out of the range starts the search again with a wider one. */
  method SearchNext(level0: bool, files: seq<TableFile>, ghost begin: Bound, ghost end: Bound, i: nat, inputs: seq<TableFile>, lo: Bound, hi: Bound)
    returns (i': nat, inputs': seq<TableFile>, lo': Bound, hi': Bound)
    requires Searching(level0, files, begin, end, i, inputs, lo, hi) && i < |files|
    ensures Searching(level0, files, begin, end, i', inputs', lo', hi')
    ensures || StartingBelow(files, lo') < StartingBelow(files, lo)
            || (lo' == lo && EndingAbove(files, hi') < EndingAbove(files, hi))
            || (lo' == lo && hi' == hi && i' == i + 1)
  {
    hide WithinClosed, StartingBelow, EndingAbove, Overlapping, Inside;
    var f := files[i];
    OverlappingStep(files, i, lo, hi);
    i', inputs', lo', hi' := i + 1, inputs, lo, hi;
    if lo.Some? && f.Largest().user < lo.value {
      // before the range
    } else if hi.Some? && f.Smallest().user > hi.value {
      // after the range
    } else {
      inputs' := inputs + [f];
      if level0 {
        OneMoreInside(inputs, lo, hi, f);
        OverlappingNone(files);
        WideningStaysWithin(files, begin, end, lo, hi, f);
        WideningShrinks(files, lo, hi, f);
        if lo.Some? && f.Smallest().user < lo.value {
          lo' := Some(f.Smallest().user);
          inputs', i' := [], 0;
          NothingInside(lo', hi);
        } else if hi.Some? && f.Largest().user > hi.value {
          hi' := Some(f.Largest().user);
          inputs', i' := [], 0;
          NothingInside(lo, hi');
        }
      }
    }
  }

  /** Files of a level that meet the range.  Level-0 files may overlap each other: there a file
      that sticks out of the range widens it, and the search starts again. */
  method GetOverlappingInputs(level0: bool, files: seq<TableFile>, begin: Bound, end: Bound)
    returns (inputs: seq<TableFile>)
    ensures forall f :: f in inputs ==> f in files
    ensures forall f :: f in files && Overlaps(f, begin, end) ==> f in inputs
    ensures NoDuplicates(files) ==> NoDuplicates(inputs)
    ensures !level0 ==> inputs == Overlapping(files, begin, end)
    ensures level0 ==> exists lo, hi :: inputs == Overlapping(files, lo, hi)
    ensures level0 ==> Closed(files, begin, end, ToSet(inputs))
    ensures level0 ==> forall s :: Closed(files, begin, end, s) ==> ToSet(inputs) <= s
    ensures AreMeeting(level0, files, begin, end, ToSet(inputs))
  {
    inputs := [];
    var userBegin, userEnd, i: nat := begin, end, 0;
    StartSearching(level0, files, begin, end);
    assert files[..|files|] == files;
    hide WithinClosed, Closed, NoDuplicates, StartingBelow, EndingAbove, Overlapping, Inside;
    while i < |files|
      invariant Searching(level0, files, begin, end, i, inputs, userBegin, userEnd)
      decreases StartingBelow(files, userBegin), EndingAbove(files, userEnd), |files| - i
    {
      i, inputs, userBegin, userEnd := SearchNext(level0, files, begin, end, i, inputs, userBegin, userEnd);
    }
    OverlappingMembers(files, userBegin, userEnd);
    if NoDuplicates(files) {
      OverlappingNoDuplicates(files, userBegin, userEnd);
    }
    if level0 {
      OverlapIsLeastClosed(files, begin, end, userBegin, userEnd, inputs);
    }
  }

  // ----- Placing a flushed memtable -----

  function TotalSize(files: seq<TableFile>): (r: nat) {
    if files == [] then 0 else TotalSize(files[..|files| - 1]) + files[|files| - 1].size
  }

  method TotalFileSize(files: seq<TableFile>) returns (sum: nat)
    ensures sum == TotalSize(files)
  {
    sum := 0;
    for i := 0 to |files|
      invariant sum == TotalSize(files[..i])
    {
      sum := sum + files[i].size;
      assert files[..i + 1][..i] == files[..i];
    }
    assert files[..|files|] == files;
  }

  ghost predicate LevelOverlaps(v: Version, level: nat, smallest: UserKey, largest: UserKey)
    requires level < NUM_LEVELS
  {
    exists f :: f in v[level] && Overlaps(f, Some(smallest), Some(largest))
  }

  function GrandparentBytes(v: Version, level: nat, smallest: UserKey, largest: UserKey): nat
    requires level + 2 < NUM_LEVELS
  {
    TotalSize(Overlapping(v[level + 2], Some(smallest), Some(largest)))
  }

  /** The deepest level, at most 2, such that neither level 0 nor any level down to it meets the
      range and none of the files passed over would overlap too much of its grandparents. */
  method PickLevelForMemTableOutput(v: Version, smallest: UserKey, largest: UserKey, maxGrandparentBytes: nat)
    returns (level: nat)
    requires forall l :: 1 <= l < NUM_LEVELS ==> SortedLevel(v[l])
    ensures level <= MAX_MEM_COMPACT_LEVEL
    ensures forall l :: 0 <= l <= level && level > 0 ==> !LevelOverlaps(v, l, smallest, largest)
    ensures forall l :: 0 <= l < level ==> GrandparentBytes(v, l, smallest, largest) <= maxGrandparentBytes
    ensures level < MAX_MEM_COMPACT_LEVEL && !LevelOverlaps(v, 0, smallest, largest) ==>
              LevelOverlaps(v, level + 1, smallest, largest)
              || GrandparentBytes(v, level, smallest, largest) > maxGrandparentBytes
  {
    hide Overlapping, Overlaps, TotalSize;
    level := 0;
    var overlap := SomeFileOverlapsRange(false, v[0], Some(smallest), Some(largest));
    if !overlap {
      while level < MAX_MEM_COMPACT_LEVEL
        invariant 0 <= level <= MAX_MEM_COMPACT_LEVEL
        invariant forall l :: 0 <= l <= level ==> !LevelOverlaps(v, l, smallest, largest)
        invariant forall l :: 0 <= l < level ==> GrandparentBytes(v, l, smallest, largest) <= maxGrandparentBytes
      {
        overlap := SomeFileOverlapsRange(true, v[level + 1], Some(smallest), Some(largest));
        if overlap {
          break;
        }
        if level + 2 < NUM_LEVELS {
          var overlaps := GetOverlappingInputs(false, v[level + 2], Some(smallest), Some(largest));
          var sum := TotalFileSize(overlaps);
          if sum > maxGrandparentBytes {
            break;
          }
        }
        level := level + 1;
      }
    }
  }

  // ----- Inputs of a compaction -----

  /** `g` meets the key range spanned by `files`. */
  ghost predicate TouchesHull(g: TableFile, files: seq<TableFile>) {
    exists f, h :: f in files && h in files
      && f.Smallest().user <= g.Largest().user && g.Smallest().user <= h.Largest().user
  }

  datatype Inputs = Inputs(level: nat, in0: seq<TableFile>, in1: seq<TableFile>, grandparents: seq<TableFile>)

  /** What the drop rules of a compaction rely on: the level-`level` inputs come with every file of
      the next level that meets their range, and at level 0 with every file of level 0 as well. */
  ghost predicate GoodInputs(v: Version, c: Inputs) {
    && c.level + 1 < NUM_LEVELS
    && c.in0 != []
    && (forall f :: f in c.in0 ==> f in v[c.level])
    && (c.level == 0 ==> forall g :: g in v[0] && TouchesHull(g, c.in0) ==> g in c.in0)
    && (forall g :: g in c.in1 <==> g in v[c.level + 1] && TouchesHull(g, c.in0))
    && NoDuplicates(c.in0) && NoDuplicates(c.in1)
  }

  ghost predicate ListedOnce(v: Version) {
    forall l :: 0 <= l < NUM_LEVELS ==> NoDuplicates(v[l])
  }

  /** `lo` and `hi` are the least and the greatest user key of the files. */
  ghost predicate IsRange(files: seq<TableFile>, lo: UserKey, hi: UserKey) {
    && (exists f :: f in files && f.Smallest().user == lo) && (exists f :: f in files && f.Largest().user == hi)
    && forall f :: f in files ==> lo <= f.Smallest().user && f.Largest().user <= hi
  }

  ghost predicate AreNextLevel(files: seq<TableFile>, in0: seq<TableFile>, in1: seq<TableFile>) {
    NoDuplicates(in1) && forall g :: g in in1 <==> g in files && TouchesHull(g, in0)
  }

  /** The picked files, or all files of their level that meet the range of both levels' inputs: the
      latter if they are more, are not too large, and need just as many files of the next level. */
  ghost predicate IsGrown(v: Version, level: nat, picked: seq<TableFile>, in1: seq<TableFile>, sizeLimit: nat, in0: seq<TableFile>)
    requires level + 1 < NUM_LEVELS
  {
    exists lo, hi, more, more1 ::
      MoreInRange(v, level, picked + in1, lo, hi, more, more1) && in0 == Chosen(picked, in1, more, more1, sizeLimit)
  }

  ghost predicate MoreInRange(v: Version, level: nat, inputs: seq<TableFile>, lo: UserKey, hi: UserKey,
                              more: seq<TableFile>, more1: seq<TableFile>)
    requires level + 1 < NUM_LEVELS
  {
    && IsRange(inputs, lo, hi)
    && AreMeeting(level == 0, v[level], Some(lo), Some(hi), ToSet(more)) && NoDuplicates(more)
    && AreNextLevel(v[level + 1], more, more1)
  }

  function Chosen(picked: seq<TableFile>, in1: seq<TableFile>, more: seq<TableFile>, more1: seq<TableFile>, sizeLimit: nat): seq<TableFile> {
    if |more| > |picked| && TotalSize(in1) + TotalSize(more) < sizeLimit && |more1| == |in1| then more else picked
  }

  /** All inputs of the compaction that starts from the picked files. */
  ghost predicate IsSetUp(v: Version, level: nat, picked: seq<TableFile>, sizeLimit: nat, c: Inputs) {
    && level + 1 < NUM_LEVELS && c.level == level
    && (forall f :: f in picked ==> f in c.in0)
    && (exists in1 :: AreNextLevel(v[level + 1], picked, in1) && |c.in1| == |in1|
                      && if in1 == [] then c.in0 == picked else IsGrown(v, level, picked, in1, sizeLimit, c.in0))
    && AreNextLevel(v[level + 1], c.in0, c.in1)
    && (level + 2 < NUM_LEVELS ==> forall g :: g in c.grandparents <==> g in v[level + 2] && TouchesHull(g, c.in0 + c.in1))
    && (level + 2 >= NUM_LEVELS ==> c.grandparents == [])
  }

  method GetRange(inputs: seq<TableFile>) returns (smallest: InternalKey, largest: InternalKey)
    requires inputs != []
    ensures exists f :: f in inputs && f.Smallest() == smallest
    ensures exists f :: f in inputs && f.Largest() == largest
    ensures forall f :: f in inputs ==> !Lt(f.Smallest(), smallest) && !Lt(largest, f.Largest())
  {
    smallest, largest := inputs[0].Smallest(), inputs[0].Largest();
    for i := 1 to |inputs|
      invariant exists j :: 0 <= j < i && inputs[j].Smallest() == smallest
      invariant exists j :: 0 <= j < i && inputs[j].Largest() == largest
      invariant forall j :: 0 <= j < i ==> !Lt(inputs[j].Smallest(), smallest) && !Lt(largest, inputs[j].Largest())
    {
      var f := inputs[i];
      if Compare(f.Smallest(), smallest) < 0 {
        smallest := f.Smallest();
      }
      if Compare(f.Largest(), largest) > 0 {
        largest := f.Largest();
      }
    }
  }

  lemma RangeIsHull(files: seq<TableFile>, smallest: InternalKey, largest: InternalKey, g: TableFile)
    requires exists f :: f in files && f.Smallest() == smallest
    requires exists f :: f in files && f.Largest() == largest
    requires forall f :: f in files ==> !Lt(f.Smallest(), smallest) && !Lt(largest, f.Largest())
    ensures Overlaps(g, Some(smallest.user), Some(largest.user)) <==> TouchesHull(g, files)
  {
    if TouchesHull(g, files) {
      var f, h :| f in files && h in files
        && f.Smallest().user <= g.Largest().user && g.Smallest().user <= h.Largest().user;
      assert smallest.user <= f.Smallest().user && h.Largest().user <= largest.user;
    }
  }

  lemma RangeFound(files: seq<TableFile>, smallest: InternalKey, largest: InternalKey)
    requires exists f :: f in files && f.Smallest() == smallest
    requires exists f :: f in files && f.Largest() == largest
    requires forall f :: f in files ==> !Lt(f.Smallest(), smallest) && !Lt(largest, f.Largest())
    ensures IsRange(files, smallest.user, largest.user)
  {
  }

  lemma NextLevelExists(files: seq<TableFile>, in0: seq<TableFile>) returns (in1: seq<TableFile>)
    requires NoDuplicates(files)
    ensures AreNextLevel(files, in0, in1)
  {
    in1 := [];
    for i := 0 to |files|
      invariant NoDuplicates(in1) && forall g :: g in in1 <==> g in files[..i] && TouchesHull(g, in0)
    {
      assert files[..i + 1] == files[..i] + [files[i]];
      if TouchesHull(files[i], in0) {
        in1 := in1 + [files[i]];
      }
    }
    assert files[..|files|] == files;
  }

  /** Inputs of the next level, exactly the files that meet the range of `inputs0`. */
  method NextLevelInputs(files: seq<TableFile>, inputs0: seq<TableFile>) returns (inputs1: seq<TableFile>)
    requires inputs0 != [] && NoDuplicates(files)
    ensures AreNextLevel(files, inputs0, inputs1)
  {
    var smallest, largest := GetRange(inputs0);
    inputs1 := GetOverlappingInputs(false, files, Some(smallest.user), Some(largest.user));
    OverlappingMembers(files, Some(smallest.user), Some(largest.user));
    forall g | g in files ensures g in inputs1 <==> TouchesHull(g, inputs0) {
      RangeIsHull(inputs0, smallest, largest, g);
    }
  }

  /** What meets the range of the inputs holds the inputs, and at level 0 whatever meets their range. */
  lemma MeetingHoldsInputs(files: seq<TableFile>, level0: bool, in0: seq<TableFile>, in1: seq<TableFile>, lo: UserKey, hi: UserKey,
                           more: seq<TableFile>)
    requires IsRange(in0 + in1, lo, hi) && (forall f :: f in in0 ==> f in files)
    requires AreMeeting(level0, files, Some(lo), Some(hi), ToSet(more))
    ensures forall f :: f in in0 ==> f in more
    ensures level0 ==> forall g :: g in files && TouchesHull(g, more) ==> g in more
  {
    forall f | f in in0 ensures f in more {
      assert f in in0 + in1;
      FileBounds(f, f.entries[0]);
      assert f in ToSet(more);
    }
    if level0 {
      ClosedHull(files, Some(lo), Some(hi), more);
    }
  }

  /** All files of a level that meet the range of the inputs. */
  method MoreFiles(v: Version, level: nat, in0: seq<TableFile>, in1: seq<TableFile>)
    returns (more: seq<TableFile>, ghost lo: UserKey, ghost hi: UserKey)
    requires level < NUM_LEVELS && in0 != [] && NoDuplicates(v[level]) && forall f :: f in in0 ==> f in v[level]
    ensures IsRange(in0 + in1, lo, hi) && AreMeeting(level == 0, v[level], Some(lo), Some(hi), ToSet(more))
    ensures NoDuplicates(more) && more != []
    ensures forall f :: f in more ==> f in v[level]
    ensures forall f :: f in in0 ==> f in more
    ensures level == 0 ==> forall g :: g in v[0] && TouchesHull(g, more) ==> g in more
  {
    var allStart, allLimit := GetRange(in0 + in1);
    lo, hi := allStart.user, allLimit.user;
    RangeFound(in0 + in1, allStart, allLimit);
    more := GetOverlappingInputs(level == 0, v[level], Some(allStart.user), Some(allLimit.user));
    hide AreMeeting, Closed, TouchesHull, IsRange, NoDuplicates;
    MeetingHoldsInputs(v[level], level == 0, in0, in1, lo, hi, more);
    assert in0[0] in more;
  }

  /** Takes more files of `level` if that needs no more files of the next level and stays small. */
  method ExpandInputs(v: Version, level: nat, in0: seq<TableFile>, in1: seq<TableFile>, expandedSizeLimit: nat)
    returns (c: Inputs)
    requires ListedOnce(v) && GoodInputs(v, Inputs(level, in0, in1, []))
    ensures GoodInputs(v, c) && c.level == level && c.grandparents == []
    ensures if in1 == [] then c.in0 == in0 else IsGrown(v, level, in0, in1, expandedSizeLimit, c.in0)
    ensures |c.in1| == |in1| && forall f :: f in in0 ==> f in c.in0
  {
    c := Inputs(level, in0, in1, []);
    assert in0 != [] && forall f :: f in in0 ==> f in v[level];
    hide GoodInputs, NoDuplicates, AreMeeting, AreNextLevel, Closed, TouchesHull, IsRange, TotalSize;
    if in1 != [] {
      var expanded0, lo, hi := MoreFiles(v, level, in0, in1);
      ghost var more1 := NextLevelExists(v[level + 1], expanded0);
      var inputs0Size := TotalFileSize(in0);
      var inputs1Size := TotalFileSize(in1);
      var expanded0Size := TotalFileSize(expanded0);
      if |expanded0| > |in0| && inputs1Size + expanded0Size < expandedSizeLimit {
        var expanded1 := NextLevelInputs(v[level + 1], expanded0);
        more1 := expanded1;
        if |expanded1| == |in1| {
          c := Inputs(level, expanded0, expanded1, []);
          GrownIsGood(v, level, expanded0, expanded1);
        }
      }
      assert MoreInRange(v, level, in0 + in1, lo, hi, expanded0, more1);
      assert c.in0 == Chosen(in0, in1, expanded0, more1, expandedSizeLimit);
    }
  }

  lemma GrownIsGood(v: Version, level: nat, in0: seq<TableFile>, in1: seq<TableFile>)
    requires level + 1 < NUM_LEVELS && in0 != [] && NoDuplicates(in0) && forall f :: f in in0 ==> f in v[level]
    requires level == 0 ==> forall g :: g in v[0] && TouchesHull(g, in0) ==> g in in0
    requires AreNextLevel(v[level + 1], in0, in1)
    ensures GoodInputs(v, Inputs(level, in0, in1, []))
  {
  }

  /** Grandparents are the files two levels down that meet the range of all inputs. */
  method Grandparents(v: Version, level: nat, inputs: seq<TableFile>) returns (files: seq<TableFile>)
    requires inputs != []
    ensures level + 2 < NUM_LEVELS ==> forall g :: g in files <==> g in v[level + 2] && TouchesHull(g, inputs)
    ensures level + 2 >= NUM_LEVELS ==> files == []
  {
    files := [];
    if level + 2 < NUM_LEVELS {
      var allStart, allLimit := GetRange(inputs);
      files := GetOverlappingInputs(false, v[level + 2], Some(allStart.user), Some(allLimit.user));
      OverlappingMembers(v[level + 2], Some(allStart.user), Some(allLimit.user));
      forall g ensures g in files <==> g in v[level + 2] && TouchesHull(g, inputs) {
        RangeIsHull(inputs, allStart, allLimit, g);
      }
    }
  }

  /** Adds the next level's inputs, grows the inputs where possible, and notes the grandparents. */
  method SetupOtherInputs(v: Version, level: nat, picked: seq<TableFile>, expandedSizeLimit: nat) returns (c: Inputs)
    requires ListedOnce(v) && level + 1 < NUM_LEVELS && picked != [] && NoDuplicates(picked)
    requires forall f :: f in picked ==> f in v[level]
    requires level == 0 ==> forall g :: g in v[0] && TouchesHull(g, picked) ==> g in picked
    ensures GoodInputs(v, c) && c.level == level
    ensures IsSetUp(v, level, picked, expandedSizeLimit, c)
  {
    hide NoDuplicates, IsGrown, TouchesHull;
    var in1 := NextLevelInputs(v[level + 1], picked);
    c := ExpandInputs(v, level, picked, in1, expandedSizeLimit);
    var grandparents := Grandparents(v, level, c.in0 + c.in1);
    c := c.(grandparents := grandparents);
  }

  lemma ClosedHull(files: seq<TableFile>, begin: Bound, end: Bound, inputs: seq<TableFile>)
    requires Closed(files, begin, end, ToSet(inputs))
    ensures forall g :: g in files && TouchesHull(g, inputs) ==> g in inputs
  {
    forall g | g in files && TouchesHull(g, inputs) ensures g in inputs {
      var f, h :| f in inputs && h in inputs
        && f.Smallest().user <= g.Largest().user && g.Smallest().user <= h.Largest().user;
      assert f in ToSet(inputs) && h in ToSet(inputs);
      assert g in ToSet(inputs);
    }
  }

  /** The turn of file `i`: it is the first whose largest key is behind the pointer, or the first of the
      level when there is no pointer or nothing is behind it. */
  ghost predicate IsTurnOf(files: seq<TableFile>, pointer: Option<InternalKey>, i: nat) {
    && i < |files|
    && match pointer
       case None => i == 0
       case Some(p) =>
         || (Lt(p, files[i].Largest()) && forall j :: 0 <= j < i ==> !Lt(p, files[j].Largest()))
         || (i == 0 && forall j :: 0 <= j < |files| ==> !Lt(p, files[j].Largest()))
  }

  /** The first file behind the compaction pointer, wrapping round to the first file of the level. */
  method PickFile(files: seq<TableFile>, pointer: Option<InternalKey>) returns (index: nat)
    requires files != []
    ensures IsTurnOf(files, pointer, index)
  {
    for i := 0 to |files|
      invariant pointer.None? ==> i == 0
      invariant pointer.Some? ==> forall j :: 0 <= j < i ==> !Lt(pointer.value, files[j].Largest())
    {
      if pointer.None? || Compare(files[i].Largest(), pointer.value) > 0 {
        return i;
      }
    }
    index := 0;
  }

  /** The one file or, at level 0, the files that must go with it. */
  ghost predicate GoWith(v: Version, level: nat, f: TableFile, picked: seq<TableFile>) {
    if level == 0 then AreMeeting(true, v[0], Some(f.Smallest().user), Some(f.Largest().user), ToSet(picked))
    else picked == [f]
  }

  /** A compaction started by the size of a level; the level itself is the caller's choice. */
  method PickCompaction(v: Version, level: nat, pointer: Option<InternalKey>, expandedSizeLimit: nat) returns (c: Inputs)
    requires ListedOnce(v) && level + 1 < NUM_LEVELS && v[level] != []
    ensures GoodInputs(v, c) && c.level == level
    ensures exists i: nat, picked :: IsTurnOf(v[level], pointer, i) && v[level][i] in c.in0
                                && GoWith(v, level, v[level][i], picked) && IsSetUp(v, level, picked, expandedSizeLimit, c)
  {
    hide GoodInputs, IsSetUp, GoWith;
    var index := PickFile(v[level], pointer);
    c := CompactFile(v, level, v[level][index], expandedSizeLimit);
  }

  /** A compaction of one given file, as started by the size of a level or by too many seeks. */
  method CompactFile(v: Version, level: nat, f: TableFile, expandedSizeLimit: nat) returns (c: Inputs)
    requires ListedOnce(v) && level + 1 < NUM_LEVELS && f in v[level]
    ensures GoodInputs(v, c) && c.level == level && f in c.in0
    ensures exists picked :: GoWith(v, level, f, picked) && IsSetUp(v, level, picked, expandedSizeLimit, c)
  {
    var inputs := [f];
    if level == 0 {
      var smallest, largest := GetRange(inputs);
      inputs := GetOverlappingInputs(true, v[0], Some(smallest.user), Some(largest.user));
      assert smallest == f.Smallest() && largest == f.Largest();
      ClosedHull(v[0], Some(smallest.user), Some(largest.user), inputs);
      FileBounds(f, f.entries[0]);
      assert f in ToSet(inputs);
    }
    assert GoWith(v, level, f, inputs);
    hide AreMeeting, AreNextLevel, IsGrown, GoWith;
    c := SetupOtherInputs(v, level, inputs, expandedSizeLimit);
  }

  lemma NoOverlapIsClosed(files: seq<TableFile>, begin: Bound, end: Bound)
    requires forall f :: f in files ==> !Overlaps(f, begin, end)
    ensures Closed(files, begin, end, {})
  {
  }

  lemma {:induction false} OverlappingPrefix(files: seq<TableFile>, i: nat, begin: Bound, end: Bound)
    requires i <= |files|
    ensures Overlapping(files[..i], begin, end) <= Overlapping(files, begin, end)
    decreases |files|
  {
    var n := |files| - 1;
    if i <= n {
      assert files[..n][..i] == files[..i];
      OverlappingPrefix(files[..n], i, begin, end);
    } else {
      assert files[..i] == files;
    }
  }

  lemma {:induction false} TotalSizeGrows(files: seq<TableFile>, i: nat, n: nat)
    requires i <= n <= |files|
    ensures TotalSize(files[..i]) <= TotalSize(files[..n])
    decreases n
  {
    if i < n {
      assert files[..n][..n - 1] == files[..n - 1];
      TotalSizeGrows(files, i, n - 1);
    }
  }

  /** A file is taken as long as those in front of it that meet the range have not filled the size. */
  ghost predicate StillTakes(files: seq<TableFile>, begin: Bound, end: Bound, i: nat, maxFileSize: nat)
    requires i <= |files|
  {
    var front := Overlapping(files[..i], begin, end);
    front == [] || TotalSize(front) < maxFileSize
  }

  /** What is picked for a manual compaction: at level 0 all that meets the range, and on deeper levels
      the first file that does and those behind it up to the size limit. */
  ghost predicate PickedForRange(files: seq<TableFile>, level0: bool, begin: Bound, end: Bound, maxFileSize: nat, picked: seq<TableFile>) {
    if level0 then AreMeeting(true, files, begin, end, ToSet(picked))
    else
      && (forall f :: f in picked ==> f in files && Overlaps(f, begin, end))
      && forall i :: 0 <= i < |files| && Overlaps(files[i], begin, end) ==>
           (files[i] in picked <==> StillTakes(files, begin, end, i, maxFileSize))
  }

  /** The files in front of the point where their total size reaches the limit, and the one that reaches it. */
  ghost predicate CutAt(files: seq<TableFile>, n: nat, maxFileSize: nat) {
    && n <= |files| && (files != [] ==> 0 < n)
    && (forall k :: 0 < k < n ==> TotalSize(files[..k]) < maxFileSize)
    && (n < |files| ==> TotalSize(files[..n]) >= maxFileSize)
  }

  method CutToSize(files: seq<TableFile>, maxFileSize: nat) returns (n: nat)
    ensures CutAt(files, n, maxFileSize)
  {
    var total := 0;
    assert files[..|files|] == files;
    for i := 0 to |files|
      invariant total == TotalSize(files[..i])
      invariant forall k :: 0 < k <= i ==> TotalSize(files[..k]) < maxFileSize
    {
      total := total + files[i].size;
      assert files[..i + 1][..i] == files[..i];
      if total >= maxFileSize {
        return i + 1;
      }
    }
    n := |files|;
  }

  lemma CutIsPicked(files: seq<TableFile>, begin: Bound, end: Bound, n: nat, maxFileSize: nat)
    requires NoDuplicates(files) && CutAt(Overlapping(files, begin, end), n, maxFileSize)
    ensures PickedForRange(files, false, begin, end, maxFileSize, Overlapping(files, begin, end)[..n])
  {
    var all := Overlapping(files, begin, end);
    OverlappingMembers(files, begin, end);
    OverlappingNoDuplicates(files, begin, end);
    forall i | 0 <= i < |files| && Overlaps(files[i], begin, end)
      ensures files[i] in all[..n] <==> StillTakes(files, begin, end, i, maxFileSize)
    {
      CutTakes(files, begin, end, n, maxFileSize, i);
    }
  }

  lemma CutTakes(files: seq<TableFile>, begin: Bound, end: Bound, n: nat, maxFileSize: nat, i: nat)
    requires NoDuplicates(Overlapping(files, begin, end)) && CutAt(Overlapping(files, begin, end), n, maxFileSize)
    requires i < |files| && Overlaps(files[i], begin, end)
    ensures files[i] in Overlapping(files, begin, end)[..n] <==> StillTakes(files, begin, end, i, maxFileSize)
  {
    var all, k := Overlapping(files, begin, end), |Overlapping(files[..i], begin, end)|;
    OverlappingPrefix(files, i, begin, end);
    OverlappingPrefix(files, i + 1, begin, end);
    OverlappingStep(files, i, begin, end);
    assert all[..k] == Overlapping(files[..i], begin, end) && all[k] == files[i];
    hide Overlapping, TotalSize, Overlaps;
    if n <= k {
      TotalSizeGrows(all, n, k);
    }
  }

  /** A manual compaction: `None` when nothing at `level` meets the range. */
  method CompactRange(v: Version, level: nat, begin: Bound, end: Bound, maxFileSize: nat, expandedSizeLimit: nat)
    returns (c: Option<Inputs>)
    requires ListedOnce(v) && level + 1 < NUM_LEVELS
    ensures c.None? <==> forall f :: f in v[level] ==> !Overlaps(f, begin, end)
    ensures c.Some? ==> GoodInputs(v, c.value) && c.value.level == level
    ensures c.Some? ==> exists picked :: PickedForRange(v[level], level == 0, begin, end, maxFileSize, picked)
                                         && IsSetUp(v, level, picked, expandedSizeLimit, c.value)
  {
    var inputs := FilesForRange(v, level, begin, end, maxFileSize);
    if inputs == [] {
      return None;
    }
    hide GoodInputs, IsSetUp, PickedForRange, TouchesHull, NoDuplicates;
    var r := SetupOtherInputs(v, level, inputs, expandedSizeLimit);
    c := Some(r);
  }

  method FilesForRange(v: Version, level: nat, begin: Bound, end: Bound, maxFileSize: nat) returns (inputs: seq<TableFile>)
    requires ListedOnce(v) && level + 1 < NUM_LEVELS
    ensures inputs == [] <==> forall f :: f in v[level] ==> !Overlaps(f, begin, end)
    ensures PickedForRange(v[level], level == 0, begin, end, maxFileSize, inputs)
    ensures NoDuplicates(inputs) && forall f :: f in inputs ==> f in v[level]
    ensures level == 0 ==> forall g :: g in v[0] && TouchesHull(g, inputs) ==> g in inputs
  {
    inputs := GetOverlappingInputs(level == 0, v[level], begin, end);
    assert inputs != [] ==> exists f :: f in v[level] && Overlaps(f, begin, end) by {
      OverlappingMembers(v[level], begin, end);
      if forall f :: f in v[level] ==> !Overlaps(f, begin, end) {
        NoOverlapIsClosed(v[level], begin, end);
      }
      if inputs != [] && level == 0 {
        assert inputs[0] in ToSet(inputs);
      } else if inputs != [] {
        assert inputs[0] in inputs;
      }
    }
    if level == 0 {
      ClosedHull(v[0], begin, end, inputs);
    } else {
      var n := CutToSize(inputs, maxFileSize);
      CutIsPicked(v[level], begin, end, n, maxFileSize);
      inputs := inputs[..n];
    }
  }
}
