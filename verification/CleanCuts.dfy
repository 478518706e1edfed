/** Compactions of user keys that span two files: when they keep every read right, and what goes wrong
    when they do not.  With no live snapshot no such key comes about. */
module CleanCuts {
  import opened Entries
  import opened Versions
  import opened VersionBuilder
  import opened CompactionInputs
  import opened Compactions
  import opened LevelInvariant

  // ----- No live snapshot: one entry per key survives -----

  /** If every reader sees every entry, at most one entry of each key is kept. */
  lemma OneSurvivorPerKey(v: Version, level: nat, input: seq<Entry>, snapshot: SequenceNumber, i: nat, j: nat)
    requires Sorted(input) && i < j < |input|
    requires forall e :: e in input ==> e.k.seqno <= snapshot
    requires input[i].k.user == input[j].k.user
    ensures Dropped(v, level, input, j, snapshot)
  {
    SameKeyIsContiguous(input, i, j);
    assert input[j - 1] in input;
  }

  ghost predicate DistinctKeys(s: seq<Entry>) {
    forall i, j :: 0 <= i < j < |s| ==> s[i].k.user != s[j].k.user
  }

  lemma {:induction false} KeptHasDistinctKeys(v: Version, level: nat, input: seq<Entry>, snapshot: SequenceNumber, n: nat)
    requires Sorted(input) && n <= |input|
    requires forall e :: e in input ==> e.k.seqno <= snapshot
    ensures DistinctKeys(Kept(v, level, input, snapshot, n))
  {
    if n > 0 {
      KeptHasDistinctKeys(v, level, input, snapshot, n - 1);
      var rest := Kept(v, level, input, snapshot, n - 1);
      if !Dropped(v, level, input, n - 1, snapshot) {
        KeptMembers(v, level, input, snapshot, n - 1);
        forall k | 0 <= k < |rest| ensures rest[k].k.user != input[n - 1].k.user {
          assert rest[k] in rest;
          var i :| 0 <= i < n - 1 && input[i] == rest[k];
          if input[i].k.user == input[n - 1].k.user {
            OneSurvivorPerKey(v, level, input, snapshot, i, n - 1);
          }
        }
      }
    }
  }

  /** Position of a file's entries within the whole output. */
  lemma {:induction false} ConcatPosition(files: seq<TableFile>, i: nat, x: nat) returns (p: nat)
    requires i < |files| && x < |files[i].entries|
    ensures p < |Concat(files)| && Concat(files)[p] == files[i].entries[x]
    ensures i + 1 < |files| ==> p < |Concat(files[..|files| - 1])|
    ensures i + 1 == |files| ==> p == |Concat(files[..i])| + x
  {
    var n := |files| - 1;
    if i == n {
      p := |Concat(files[..n])| + x;
    } else {
      p := ConcatPosition(files[..n], i, x);
      assert files[..n][i] == files[i];
    }
  }

  lemma {:induction false} ConcatMembers(files: seq<TableFile>)
    ensures ToSet(Concat(files)) == FileSetEntries(ToSet(files))
  {
    if files != [] {
      var n := |files| - 1;
      assert files == files[..n] + [files[n]];
      ConcatMembers(files[..n]);
      assert ToSet(files) == ToSet(files[..n]) + {files[n]};
      assert FileSetEntries(ToSet(files)) == FileSetEntries(ToSet(files[..n])) + ToSet(files[n].entries);
      assert ToSet(Concat(files)) == ToSet(Concat(files[..n])) + ToSet(files[n].entries);
    }
  }

  /** Consecutive pieces of a sorted run without repeated keys make a clean level. */
  lemma {:induction false} PiecesAreClean(files: seq<TableFile>)
    requires Sorted(Concat(files)) && DistinctKeys(Concat(files))
    ensures CleanCut(files)
  {
    if files != [] {
      var n := |files| - 1;
      assert Concat(files)[..|Concat(files[..n])|] == Concat(files[..n]);
      PiecesAreClean(files[..n]);
      forall i | 0 <= i < n ensures files[i].Largest().user < files[n].Smallest().user {
        var p := ConcatPosition(files, i, |files[i].entries| - 1);
        var q := ConcatPosition(files, n, 0);
        assert p < q;
      }
    }
  }

  lemma CleanIsDisjoint(files: seq<TableFile>)
    requires CleanCut(files)
    ensures Disjoint(ToSet(files))
  {
    forall f, g | f in ToSet(files) && g in ToSet(files) && f != g ensures Apart(f, g) {
      var i :| 0 <= i < |files| && files[i] == f;
      var j :| 0 <= j < |files| && files[j] == g;
    }
  }

  /** With no snapshot older than the data, a compaction always cuts between user keys. */
  lemma NoSnapshotMeansCleanCut(v: Version, level: nat, input: seq<Entry>, snapshot: SequenceNumber, outputs: seq<TableFile>)
    requires Sorted(input)
    requires forall e :: e in input ==> e.k.seqno <= snapshot
    requires Concat(outputs) == Kept(v, level, input, snapshot, |input|)
    ensures CleanCut(outputs)
  {
    KeptSorted(v, level, input, snapshot, |input|);
    KeptHasDistinctKeys(v, level, input, snapshot, |input|);
    PiecesAreClean(outputs);
  }

  /** Consecutive pieces of a sorted run follow one another. */
  lemma {:induction false} PiecesAreInOrder(files: seq<TableFile>)
    requires Sorted(Concat(files))
    ensures SortedLevel(files) && InKeyOrder(ToSet(files))
  {
    if files != [] {
      var n := |files| - 1;
      assert Concat(files)[..|Concat(files[..n])|] == Concat(files[..n]);
      PiecesAreInOrder(files[..n]);
      forall i | 0 <= i < n ensures Lt(files[i].Largest(), files[n].Smallest()) {
        var p := ConcatPosition(files, i, |files[i].entries| - 1);
        var q := ConcatPosition(files, n, 0);
        assert p < q;
      }
      assert forall i :: 0 <= i < n ==> files[..n][i] == files[i];
    }
  }

  // ----- The newest input entry of a key -----

  predicate FirstOfKey(input: seq<Entry>, i: nat)
    requires i < |input|
  {
    i == 0 || input[i - 1].k.user != input[i].k.user
  }

  lemma {:induction false} FirstOfKeyExists(input: seq<Entry>, j: nat) returns (i: nat)
    requires Sorted(input) && j < |input|
    ensures i <= j && FirstOfKey(input, i) && input[i].k.user == input[j].k.user
  {
    i := j;
    if !FirstOfKey(input, j) {
      i := FirstOfKeyExists(input, j - 1);
    }
  }

  /** The newest input entry of a key survives unless it is an obsolete deletion, and then nothing of
      the key survives. */
  lemma FirstDecides(v: Version, level: nat, input: seq<Entry>, snapshot: SequenceNumber, i: nat, j: nat)
    requires Sorted(input) && i <= j < |input|
    requires FirstOfKey(input, i) && input[i].k.user == input[j].k.user
    ensures Dropped(v, level, input, i, snapshot) <==> Obsolete(v, level, input[i], snapshot)
    ensures Obsolete(v, level, input[i], snapshot) ==> Dropped(v, level, input, j, snapshot)
  {
    if i < j {
      SameKeyIsContiguous(input, i, j);
    }
  }

  // ----- Files left behind at the level of the inputs -----

  /** Some file of the level stays behind and goes on with the user key that an input ends with. */
  ghost predicate LeavesBehind(v: Version, c: Inputs, f: TableFile, g: TableFile)
    requires c.level < NUM_LEVELS
  {
    c.level > 0 && f in c.in0 && g in v[c.level] && g !in c.in0 && GoesOn(f, g)
  }

  /** That key is not about to vanish from the inputs behind an obsolete deletion. */
  ghost predicate LeavesStale(v: Version, c: Inputs, input: seq<Entry>, snapshot: SequenceNumber)
    requires c.level < NUM_LEVELS
  {
    exists f, g, i :: LeavesBehind(v, c, f, g) && 0 <= i < |input| && Surfaces(v, c, input, snapshot, f, i)
  }

  /** Entry `i` is the newest of the last key of `f` and will be among the outputs. */
  ghost predicate Surfaces(v: Version, c: Inputs, input: seq<Entry>, snapshot: SequenceNumber, f: TableFile, i: nat)
    requires i < |input|
  {
    FirstOfKey(input, i) && input[i].k.user == f.Largest().user && !Obsolete(v, c.level, input[i], snapshot)
  }

  lemma KeptIsOutput(v: Version, level: nat, input: seq<Entry>, snapshot: SequenceNumber, outs: seq<TableFile>, i: nat)
    requires Concat(outs) == Kept(v, level, input, snapshot, |input|) && i < |input|
    requires !Dropped(v, level, input, i, snapshot)
    ensures exists o :: o in outs && input[i] in o.entries
  {
    KeptMembers(v, level, input, snapshot, |input|);
    ConcatMembers(outs);
    assert input[i] in ToSet(Concat(outs));
    var o :| o in ToSet(outs) && input[i] in o.entries;
  }

  lemma OutputIsKept(v: Version, level: nat, input: seq<Entry>, snapshot: SequenceNumber, outs: seq<TableFile>,
                     o: TableFile, e: Entry) returns (j: nat)
    requires Concat(outs) == Kept(v, level, input, snapshot, |input|) && o in outs && e in o.entries
    ensures j < |input| && input[j] == e && !Dropped(v, level, input, j, snapshot)
  {
    KeptMembers(v, level, input, snapshot, |input|);
    ConcatMembers(outs);
    assert o in ToSet(outs) && e in FileSetEntries(ToSet(outs));
    assert e in Kept(v, level, input, snapshot, |input|);
    j :| 0 <= j < |input| && input[j] == e && !Dropped(v, level, input, j, snapshot);
  }

  lemma StaleLeavesBehind(v: Version, c: Inputs, input: seq<Entry>, snapshot: SequenceNumber, outs: seq<TableFile>,
                          f: TableFile, g: TableFile, i: nat)
    requires GoodInputs(v, c) && Sorted(input) && ToSet(input) == InputEntries(c)
    requires Concat(outs) == Kept(v, c.level, input, snapshot, |input|)
    requires LeavesBehind(v, c, f, g) && i < |input| && FirstOfKey(input, i) && input[i].k.user == f.Largest().user
    requires !Obsolete(v, c.level, input[i], snapshot)
    ensures !LeavesNoneBehind(v, c, ToSet(outs))
  {
    FirstDecides(v, c.level, input, snapshot, i, i);
    KeptIsOutput(v, c.level, input, snapshot, outs, i);
    var o :| o in outs && input[i] in o.entries;
    var last := f.entries[|f.entries| - 1];
    assert f in c.in0 + c.in1 && last in f.entries && last in ToSet(input);
    var j :| 0 <= j < |input| && input[j] == last;
    var k := FirstOfKeyExists(input, j);
    SameFirst(input, i, k);
    assert Lt(input[i].k, last.k) || i == j;
    assert o in ToSet(outs) && !Lt(g.Smallest(), input[i].k);
  }

  lemma SameFirst(input: seq<Entry>, i: nat, k: nat)
    requires Sorted(input) && i < |input| && k < |input| && FirstOfKey(input, i) && FirstOfKey(input, k)
    requires input[i].k.user == input[k].k.user
    ensures i == k
  {
    if i < k {
      SameKeyIsContiguous(input, i, k);
    } else if k < i {
      SameKeyIsContiguous(input, k, i);
    }
  }

  /** An input entry that goes to the next level although a file left behind continues its key comes
      from an input file that ends with that key. */
  lemma BehindIsGoesOn(v: Version, c: Inputs, g: TableFile, e: Entry) returns (f: TableFile)
    requires WellShaped(v) && GoodInputs(v, c)
    requires g in v[c.level] && g !in c.in0 && e in InputEntries(c) && e.k.user == g.Smallest().user && !Lt(g.Smallest(), e.k)
    ensures LeavesBehind(v, c, f, g) && f.Largest().user == e.k.user
  {
    f :| f in c.in0 + c.in1 && e in f.entries;
    if f in c.in1 {
      BelowIsBehind(v, c, g, f, e);
      assert false;
    }
    FileBounds(f, e);
    FileBounds(g, g.entries[0]);
    assert c.level == 0 ==> !TouchesHull(g, c.in0);
    assert c.level > 0 ==> f in ToSet(v[c.level]) && g in ToSet(v[c.level]);
  }

  lemma BelowIsBehind(v: Version, c: Inputs, g: TableFile, f: TableFile, e: Entry)
    requires WellShaped(v) && GoodInputs(v, c)
    requires g in v[c.level] && f in c.in1 && e in f.entries && e.k.user == g.Smallest().user
    ensures Lt(g.Smallest(), e.k)
  {
    assert f in v[c.level + 1] && NewerFile(g, f);
    assert g.entries[0] in ToSet(g.entries) && e in ToSet(f.entries);
  }

  lemma NotStaleLeavesNone(v: Version, c: Inputs, input: seq<Entry>, snapshot: SequenceNumber, outs: seq<TableFile>)
    requires WellShaped(v) && GoodInputs(v, c) && Sorted(input) && ToSet(input) == InputEntries(c)
    requires Concat(outs) == Kept(v, c.level, input, snapshot, |input|)
    requires !LeavesStale(v, c, input, snapshot)
    ensures LeavesNoneBehind(v, c, ToSet(outs))
  {
    forall g, o, e | g in v[c.level] && g !in c.in0 && o in ToSet(outs) && e in o.entries && e.k.user == g.Smallest().user
      ensures Lt(g.Smallest(), e.k)
    {
      var j := OutputIsKept(v, c.level, input, snapshot, outs, o, e);
      if !Lt(g.Smallest(), e.k) {
        assert e in ToSet(input);
        var f := BehindIsGoesOn(v, c, g, e);
        var i := FirstOfKeyExists(input, j);
        FirstDecides(v, c.level, input, snapshot, i, j);
        assert Surfaces(v, c, input, snapshot, f, i);
        assert false;
      }
    }
  }

  /** A compaction keeps the shape of the version if and only if every file left behind that goes on
      with a user key of the inputs meets only an obsolete deletion of that key. */
  lemma CompactionKeepsShapeExactly(v: Version, w: Version, c: Inputs, input: seq<Entry>, snapshot: SequenceNumber,
                                    outs: seq<TableFile>)
    requires WellShaped(v) && Distinct(VersionEntries(v)) && GoodInputs(v, c)
    requires Sorted(input) && ToSet(input) == InputEntries(c)
    requires Concat(outs) == Kept(v, c.level, input, snapshot, |input|)
    requires Replaced(v, w, c, ToSet(outs)) && Identified(AllFiles(v) + ToSet(outs))
    ensures WellShaped(w) <==> !LeavesStale(v, c, input, snapshot)
    ensures LeavesStale(v, c, input, snapshot) ==> !AgeOrdered(w)
  {
    KeptSorted(v, c.level, input, snapshot, |input|);
    PiecesAreInOrder(outs);
    OutputsAreDrawn(v, c, input, snapshot, outs);
    hide WellShaped, Replaced, GoodInputs, Identified, InKeyOrder, DrawnFrom, VersionEntries, Distinct;
    CompactionKeepsShape(v, w, c, ToSet(outs));
    if f, g, i :| LeavesBehind(v, c, f, g) && 0 <= i < |input| && Surfaces(v, c, input, snapshot, f, i) {
      StaleLeavesBehind(v, c, input, snapshot, outs, f, g, i);
      AgedByLevelIsAgeOrdered(w);
      if AgedByLevel(w) {
        OlderBelowLeavesNone(v, w, c, ToSet(outs));
      }
    } else {
      NotStaleLeavesNone(v, c, input, snapshot, outs);
    }
  }

  lemma OutputsAreDrawn(v: Version, c: Inputs, input: seq<Entry>, snapshot: SequenceNumber, outs: seq<TableFile>)
    requires ToSet(input) == InputEntries(c)
    requires Concat(outs) == Kept(v, c.level, input, snapshot, |input|)
    ensures DrawnFrom(c, ToSet(outs))
    ensures FileSetEntries(ToSet(outs)) == ToSet(Kept(v, c.level, input, snapshot, |input|))
  {
    ConcatMembers(outs);
    KeptMembers(v, c.level, input, snapshot, |input|);
    forall o, e | o in ToSet(outs) && e in o.entries ensures exists f :: f in c.in0 + c.in1 && e in f.entries {
      assert e in FileSetEntries(ToSet(outs));
      assert e in ToSet(Concat(outs));
      assert e in ToSet(input);
    }
  }

  // ----- Moving a file -----

  /** Moving a file down keeps newer data above older data if and only if no file of its level goes on
      with its last user key. */
  lemma MoveKeepsAgeOrder(v: Version, w: Version, c: Inputs)
    requires WellShaped(v) && Distinct(VersionEntries(v)) && GoodInputs(v, c) && |c.in0| == 1 && c.in1 == []
    requires Replaced(v, w, c, {c.in0[0]})
    ensures AgeOrdered(w) <==> NoneGoesOn(v, c)
    ensures WellShaped(w) <==> NoneGoesOn(v, c)
  {
    var f := c.in0[0];
    assert f in c.in0 && f in v[c.level];
    assert AllFiles(v) + {f} == AllFiles(v);
    SingleInputIsDrawn(c);
    CompactionKeepsShape(v, w, c, {f});
    AgedByLevelIsAgeOrdered(w);
    if AgedByLevel(w) {
      OlderBelowLeavesNone(v, w, c, {f});
    }
    MoveLeavesNone(v, c);
    hide GoodInputs, Replaced, LeavesNoneBehind, NoneGoesOn, InKeyOrder, Identified;
  }

  lemma MoveLeavesNone(v: Version, c: Inputs)
    requires WellShaped(v) && GoodInputs(v, c) && |c.in0| == 1 && c.in1 == []
    ensures LeavesNoneBehind(v, c, {c.in0[0]}) <==> NoneGoesOn(v, c)
  {
    var f := c.in0[0];
    assert f in c.in0 && forall h :: h in c.in0 ==> h == f;
    SingleInputIsDrawn(c);
    assert InputEntries(c) == ToSet(f.entries);
    if LeavesNoneBehind(v, c, {f}) {
      assert f.entries[|f.entries| - 1] in f.entries;
    }
    if NoneGoesOn(v, c) {
      forall g, e | g in v[c.level] && g !in c.in0 && e in f.entries && e.k.user == g.Smallest().user
        ensures Lt(g.Smallest(), e.k)
      {
        if !Lt(g.Smallest(), e.k) {
          var h := BehindIsGoesOn(v, c, g, e);
          assert false;
        }
      }
    }
  }

  lemma SingleInputIsDrawn(c: Inputs)
    requires |c.in0| == 1 && c.in1 == []
    ensures ToSet(c.in0 + c.in1) == {c.in0[0]} && DrawnFrom(c, {c.in0[0]})
  {
    assert c.in0 + c.in1 == [c.in0[0]];
  }

  // ----- Harmless compactions -----

  /** A caller can check this before the compaction: what stays behind is not made stale, and no
      deletion is dropped that hides a value in a file that is not compacted. */
  ghost predicate Harmless(v: Version, c: Inputs, input: seq<Entry>, snapshot: SequenceNumber)
    requires c.level < NUM_LEVELS
  {
    !LeavesStale(v, c, input, snapshot) && !Uncovers(v, c.level, RestEntries(v, c), input, snapshot)
  }

  /** If no file outside the inputs goes on with a user key of theirs, the compaction is harmless. */
  lemma NoneGoesOnIsHarmless(v: Version, c: Inputs, input: seq<Entry>, snapshot: SequenceNumber)
    requires WellShaped(v) && Distinct(VersionEntries(v)) && GoodInputs(v, c) && NoneGoesOn(v, c)
    requires ToSet(input) == InputEntries(c)
    ensures Harmless(v, c, input, snapshot)
  {
    RestOfVersionIsNewer(v, c, input);
    NewerRestUncoversNothing(v, c.level, RestEntries(v, c), input, snapshot);
  }

  /** While no user key spans two files, every compaction is of that kind. */
  lemma CleanMeansNoneGoesOn(v: Version, c: Inputs)
    requires Clean(v) && GoodInputs(v, c)
    ensures NoneGoesOn(v, c)
  {
    forall f, g | f in c.in0 && g in v[c.level] && g !in c.in0 && c.level > 0 ensures !GoesOn(f, g) {
      assert f in ToSet(v[c.level]) && g in ToSet(v[c.level]) && Apart(f, g);
      FileBounds(f, f.entries[0]);
      FileBounds(g, g.entries[0]);
    }
    forall f, g | f in c.in1 && g in v[c.level + 1] && g !in c.in1 ensures !GoesOn(f, g) {
      assert f in ToSet(v[c.level + 1]) && g in ToSet(v[c.level + 1]) && Apart(f, g);
      FileBounds(f, f.entries[0]);
      FileBounds(g, g.entries[0]);
    }
  }

  /** Outputs cut between user keys keep a version in which no user key spans two files. */
  lemma CleanCutKeepsClean(v: Version, w: Version, c: Inputs, outs: set<TableFile>)
    requires WellShaped(v) && Clean(v) && GoodInputs(v, c) && DrawnFrom(c, outs) && Replaced(v, w, c, outs) && Disjoint(outs)
    ensures Clean(w)
  {
    forall l, f, g | 1 <= l < NUM_LEVELS && f in w[l] && g in w[l] && f != g ensures Apart(f, g) {
      if f in v[l] && !IsInput(c, l, f) {
        if g in v[l] && !IsInput(c, l, g) {
          assert f in ToSet(v[l]) && g in ToSet(v[l]);
        } else {
          CleanOutputApart(v, c, outs, f, g);
        }
      } else if g in v[l] && !IsInput(c, l, g) {
        CleanOutputApart(v, c, outs, g, f);
      }
    }
  }

  lemma CleanInputApart(v: Version, c: Inputs, g: TableFile)
    requires WellShaped(v) && Clean(v) && GoodInputs(v, c) && g in v[c.level + 1] && g !in c.in1
    ensures forall f :: f in c.in0 + c.in1 ==> Apart(f, g)
  {
    OutsideIsToOneSide(v, c, g);
    forall f | f in c.in1 ensures Apart(f, g) {
      assert f in ToSet(v[c.level + 1]) && g in ToSet(v[c.level + 1]);
    }
  }

  lemma BesideBoth(g: TableFile, f: TableFile, o: TableFile)
    requires Lt(g.Largest(), f.Smallest()) && Apart(f, g) && !Lt(o.Smallest(), f.Smallest())
    ensures Apart(g, o)
  {
    FileBounds(f, f.entries[0]);
    FileBounds(g, g.entries[0]);
  }

  lemma BesideBothBack(g: TableFile, h: TableFile, o: TableFile)
    requires Lt(h.Largest(), g.Smallest()) && Apart(h, g) && !Lt(h.Largest(), o.Largest())
    ensures Apart(g, o)
  {
    FileBounds(h, h.entries[0]);
    FileBounds(g, g.entries[0]);
  }

  lemma CleanOutputApart(v: Version, c: Inputs, outs: set<TableFile>, g: TableFile, o: TableFile)
    requires WellShaped(v) && Clean(v) && GoodInputs(v, c) && DrawnFrom(c, outs)
    requires g in v[c.level + 1] && g !in c.in1 && o in outs
    ensures Apart(g, o)
  {
    hide WellShaped, Clean, GoodInputs, DrawnFrom, Apart;
    CleanInputApart(v, c, g);
    OutsideIsToOneSide(v, c, g);
    OutputWithinInputs(c, outs, o);
    var f :| f in c.in0 + c.in1 && !Lt(o.Smallest(), f.Smallest());
    var h :| h in c.in0 + c.in1 && !Lt(h.Largest(), o.Largest());
    if Lt(g.Largest(), f.Smallest()) {
      BesideBoth(g, f, o);
    } else {
      BesideBothBack(g, h, o);
    }
  }
}
