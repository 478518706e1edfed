/** The merge step of a compaction: which entries it drops, how it cuts its output, and why
    dropping them changes no read at or above the oldest snapshot. */
module Compactions {
  import opened Entries
  import opened Versions
  import opened CompactionInputs

  // ----- The drop rules -----

  /** No file two or more levels down has a range that holds `u`. */
  predicate BaseLevel(v: Version, level: nat, u: UserKey) {
    forall l, i :: level + 2 <= l < NUM_LEVELS && 0 <= i < |v[l]| ==> !InRange(v[l][i], u)
  }

  predicate InRange(f: TableFile, u: UserKey) {
    f.Smallest().user <= u <= f.Largest().user
  }

  /** Rule (A): the entry in front has the same user key and is itself old enough for every reader. */
  predicate Hidden(input: seq<Entry>, i: nat, snapshot: SequenceNumber)
    requires i < |input|
  {
    i > 0 && input[i - 1].k.user == input[i].k.user && input[i - 1].k.seqno <= snapshot
  }

  /** The entry is a deletion that every reader sees and that hides nothing further down. */
  predicate Obsolete(v: Version, level: nat, e: Entry, snapshot: SequenceNumber) {
    e.k.kind.Deletion? && e.k.seqno <= snapshot && BaseLevel(v, level, e.k.user)
  }

  predicate Dropped(v: Version, level: nat, input: seq<Entry>, i: nat, snapshot: SequenceNumber)
    requires i < |input|
  {
    Hidden(input, i, snapshot) || Obsolete(v, level, input[i], snapshot)
  }

  /** What survives of the first `n` input entries. */
  function Kept(v: Version, level: nat, input: seq<Entry>, snapshot: SequenceNumber, n: nat): seq<Entry>
    requires n <= |input|
  {
    if n == 0 then []
    else Kept(v, level, input, snapshot, n - 1)
         + (if Dropped(v, level, input, n - 1, snapshot) then [] else [input[n - 1]])
  }

  lemma {:induction false} KeptMembers(v: Version, level: nat, input: seq<Entry>, snapshot: SequenceNumber, n: nat)
    requires n <= |input|
    ensures forall e :: e in Kept(v, level, input, snapshot, n) <==>
              exists i :: 0 <= i < n && input[i] == e && !Dropped(v, level, input, i, snapshot)
  {
    if n > 0 {
      KeptMembers(v, level, input, snapshot, n - 1);
    }
  }

  lemma {:induction false} KeptSorted(v: Version, level: nat, input: seq<Entry>, snapshot: SequenceNumber, n: nat)
    requires n <= |input| && Sorted(input)
    ensures Sorted(Kept(v, level, input, snapshot, n))
    ensures forall e :: e in Kept(v, level, input, snapshot, n) ==> e in input[..n]
  {
    if n > 0 {
      KeptSorted(v, level, input, snapshot, n - 1);
      var rest := Kept(v, level, input, snapshot, n - 1);
      forall j | 0 <= j < |rest| ensures Lt(rest[j].k, input[n - 1].k) {
        assert rest[j] in input[..n - 1];
      }
    }
  }

  // ----- Dropping preserves reads -----

  /** Outside the inputs, entries of a key that the inputs know are newer than all of them, except
      for keys that have data two or more levels down. */
  ghost predicate RestIsNewerUnlessDeeper(v: Version, level: nat, rest: set<Entry>, input: seq<Entry>) {
    forall e, o :: e in rest && o in input && e.k.user == o.k.user && BaseLevel(v, level, e.k.user)
      ==> e.k.seqno > o.k.seqno
  }

  lemma SameKeyIsContiguous(input: seq<Entry>, i: nat, j: nat)
    requires Sorted(input) && i < j < |input| && input[i].k.user == input[j].k.user
    ensures input[j - 1].k.user == input[j].k.user && input[i].k.seqno >= input[j - 1].k.seqno
    ensures input[i].k.seqno >= input[j].k.seqno
  {
    assert Lt(input[i].k, input[j].k);
    assert Lt(input[j - 1].k, input[j].k);
    assert i == j - 1 || Lt(input[i].k, input[j - 1].k);
  }

  /** The newest visible input entry of a key survives, unless it is an obsolete deletion. */
  lemma NewestSurvives(v: Version, level: nat, input: seq<Entry>, snapshot: SequenceNumber, i: nat, s: SequenceNumber)
    requires Sorted(input) && Distinct(ToSet(input)) && i < |input| && snapshot <= s
    requires IsNewest(ToSet(input), input[i].k.user, s, input[i])
    ensures Dropped(v, level, input, i, snapshot) ==> Obsolete(v, level, input[i], snapshot)
  {
    if i > 0 {
      assert Lt(input[i - 1].k, input[i].k);
      assert input[i - 1] in ToSet(input) && input[i] in ToSet(input);
    }
  }

  /** Behind an obsolete deletion nothing of its key survives that a reader at `s` could see, when
      the deletion is what such a reader would find first. */
  lemma NothingBehindObsolete(v: Version, level: nat, input: seq<Entry>, snapshot: SequenceNumber, i: nat, j: nat, s: SequenceNumber)
    requires Sorted(input) && Distinct(ToSet(input)) && i < |input| && j < |input|
    requires IsNewest(ToSet(input), input[i].k.user, s, input[i])
    requires Obsolete(v, level, input[i], snapshot)
    requires Candidate(input[j], input[i].k.user, s)
    ensures Dropped(v, level, input, j, snapshot)
  {
    assert input[j] in ToSet(input);
    if j > i {
      SameKeyIsContiguous(input, i, j);
    } else if j < i {
      SameKeyIsContiguous(input, j, i);
      assert input[j] == input[i];
    }
  }

  /** Outside the inputs there is an older value that only the deletion `d` hides, and `d` is dropped. */
  ghost predicate Uncovered(v: Version, level: nat, rest: set<Entry>, input: seq<Entry>, snapshot: SequenceNumber,
                            d: Entry, n: Entry) {
    && d in input && Obsolete(v, level, d, snapshot) && IsNewest(rest + ToSet(input), d.k.user, snapshot, d)
    && IsNewest(rest, d.k.user, snapshot, n) && n.k.kind.Value?
  }

  ghost predicate Uncovers(v: Version, level: nat, rest: set<Entry>, input: seq<Entry>, snapshot: SequenceNumber) {
    exists d, n :: Uncovered(v, level, rest, input, snapshot, d, n)
  }

  /** When the newest entry of a key is a dropped deletion, no other input entry is left that could
      be seen instead. */
  lemma OnlyRestIsLeft(v: Version, level: nat, rest: set<Entry>, input: seq<Entry>, snapshot: SequenceNumber,
                       d: Entry, s: SequenceNumber, e: Entry)
    requires Sorted(input) && Distinct(ToSet(input))
    requires d in input && Obsolete(v, level, d, snapshot) && IsNewest(rest + ToSet(input), d.k.user, s, d)
    requires e in rest + ToSet(Kept(v, level, input, snapshot, |input|)) && Candidate(e, d.k.user, s)
    ensures e in rest
  {
    var i :| 0 <= i < |input| && input[i] == d;
    KeptMembers(v, level, input, snapshot, |input|);
    if e !in rest {
      var j :| 0 <= j < |input| && input[j] == e && !Dropped(v, level, input, j, snapshot);
      assert IsNewest(ToSet(input), input[i].k.user, s, input[i]);
      NothingBehindObsolete(v, level, input, snapshot, i, j, s);
    }
  }

  /** A read whose answer is a dropped deletion still finds nothing, unless that deletion hid a value. */
  lemma DroppedDeletionRead(v: Version, level: nat, rest: set<Entry>, input: seq<Entry>, snapshot: SequenceNumber,
                            d: Entry, s: SequenceNumber)
    requires Sorted(input) && snapshot <= s && Distinct(rest + ToSet(input)) && Distinct(ToSet(input))
    requires !Uncovers(v, level, rest, input, snapshot)
    requires d in input && Obsolete(v, level, d, snapshot) && IsNewest(rest + ToSet(input), d.k.user, s, d)
    ensures Visible(rest + ToSet(Kept(v, level, input, snapshot, |input|)), d.k.user, s) == None
  {
    var u, after := d.k.user, rest + ToSet(Kept(v, level, input, snapshot, |input|));
    KeptMembers(v, level, input, snapshot, |input|);
    if c :| c in after && Candidate(c, u, s) {
      OnlyRestIsLeft(v, level, rest, input, snapshot, d, s, c);
      var n := NewestExists(rest, u, s, c);
      forall e | e in after && Candidate(e, u, s) ensures e.k.seqno <= n.k.seqno {
        OnlyRestIsLeft(v, level, rest, input, snapshot, d, s, e);
      }
      assert IsNewest(after, u, s, n);
      assert n in rest + ToSet(input) && n.k.seqno <= d.k.seqno <= snapshot;
      assert IsNewest(rest, u, snapshot, n) && IsNewest(rest + ToSet(input), u, snapshot, d);
      assert !Uncovered(v, level, rest, input, snapshot, d, n);
      VisibleIs(after, u, s, n);
    } else {
      VisibleNone(after, u, s);
    }
  }

  lemma UncoveredRead(v: Version, level: nat, rest: set<Entry>, input: seq<Entry>, snapshot: SequenceNumber, d: Entry, n: Entry)
    requires Sorted(input) && Distinct(rest + ToSet(input)) && Distinct(ToSet(input))
    requires Uncovered(v, level, rest, input, snapshot, d, n)
    ensures Visible(rest + ToSet(input), d.k.user, snapshot) == None
    ensures Visible(rest + ToSet(Kept(v, level, input, snapshot, |input|)), d.k.user, snapshot) == Some(n.value)
  {
    var u, after := d.k.user, rest + ToSet(Kept(v, level, input, snapshot, |input|));
    VisibleIs(rest + ToSet(input), u, snapshot, d);
    KeptMembers(v, level, input, snapshot, |input|);
    forall e | e in after && Candidate(e, u, snapshot) ensures e.k.seqno <= n.k.seqno {
      OnlyRestIsLeft(v, level, rest, input, snapshot, d, snapshot, e);
    }
    assert IsNewest(after, u, snapshot, n);
    VisibleIs(after, u, snapshot, n);
  }

  lemma UncoveringNothingKeepsRead(v: Version, level: nat, rest: set<Entry>, input: seq<Entry>, snapshot: SequenceNumber,
                                   u: UserKey, s: SequenceNumber)
    requires Sorted(input) && snapshot <= s && Distinct(rest + ToSet(input))
    requires !Uncovers(v, level, rest, input, snapshot)
    ensures Visible(rest + ToSet(Kept(v, level, input, snapshot, |input|)), u, s) == Visible(rest + ToSet(input), u, s)
  {
    var all := rest + ToSet(input);
    var after := rest + ToSet(Kept(v, level, input, snapshot, |input|));
    KeptMembers(v, level, input, snapshot, |input|);
    assert after <= all;
    assert forall e :: e in ToSet(input) ==> e in all;
    if c :| c in all && Candidate(c, u, s) {
      var n := NewestExists(all, u, s, c);
      VisibleIs(all, u, s, n);
      if n in after {
        assert IsNewest(after, u, s, n);
        VisibleIs(after, u, s, n);
      } else {
        var i :| 0 <= i < |input| && input[i] == n;
        assert IsNewest(ToSet(input), u, s, n);
        NewestSurvives(v, level, input, snapshot, i, s);
        DroppedDeletionRead(v, level, rest, input, snapshot, n, s);
      }
    } else {
      VisibleNone(all, u, s);
      VisibleNone(after, u, s);
    }
  }

  /** The merge changes no read at or above the oldest snapshot if and only if it drops no deletion
      that hides a value outside its inputs. */
  lemma MergeIsExact(v: Version, level: nat, rest: set<Entry>, input: seq<Entry>, snapshot: SequenceNumber)
    requires Sorted(input) && Distinct(rest + ToSet(input))
    ensures (forall u, s: SequenceNumber :: snapshot <= s ==>
               Visible(rest + ToSet(Kept(v, level, input, snapshot, |input|)), u, s) == Visible(rest + ToSet(input), u, s))
            <==> !Uncovers(v, level, rest, input, snapshot)
  {
    assert Distinct(ToSet(input)) by {
      assert forall e :: e in ToSet(input) ==> e in rest + ToSet(input);
    }
    if d, n :| Uncovered(v, level, rest, input, snapshot, d, n) {
      UncoveredRead(v, level, rest, input, snapshot, d, n);
    } else {
      forall u, s: SequenceNumber | snapshot <= s
        ensures Visible(rest + ToSet(Kept(v, level, input, snapshot, |input|)), u, s) == Visible(rest + ToSet(input), u, s)
      {
        UncoveringNothingKeepsRead(v, level, rest, input, snapshot, u, s);
      }
    }
  }

  lemma NewerRestUncoversNothing(v: Version, level: nat, rest: set<Entry>, input: seq<Entry>, snapshot: SequenceNumber)
    requires RestIsNewerUnlessDeeper(v, level, rest, input)
    ensures !Uncovers(v, level, rest, input, snapshot)
  {
    forall d, n | d in input && n in rest && d.k.user == n.k.user && Obsolete(v, level, d, snapshot)
      ensures n.k.seqno > d.k.seqno
    {
    }
  }

  /** Every read at or above the oldest snapshot gives the same answer after the merge, when what is
      not merged is newer or lies deeper. */
  lemma MergePreservesReads(v: Version, level: nat, rest: set<Entry>, input: seq<Entry>, snapshot: SequenceNumber,
                            u: UserKey, s: SequenceNumber)
    requires Sorted(input) && snapshot <= s
    requires Distinct(rest + ToSet(input))
    requires RestIsNewerUnlessDeeper(v, level, rest, input)
    ensures Visible(rest + ToSet(Kept(v, level, input, snapshot, |input|)), u, s)
            == Visible(rest + ToSet(input), u, s)
  {
    NewerRestUncoversNothing(v, level, rest, input, snapshot);
    UncoveringNothingKeepsRead(v, level, rest, input, snapshot, u, s);
  }

  // ----- The job -----

  function Concat(files: seq<TableFile>): seq<Entry> {
    if files == [] then [] else Concat(files[..|files| - 1]) + files[|files| - 1].entries
  }

  /** Sum of the sizes of `grandparents[from..to]`. */
  function BytesBetween(grandparents: seq<TableFile>, from: nat, to: nat): nat
    requires from <= to <= |grandparents|
  {
    if from == to then 0 else BytesBetween(grandparents, from, to - 1) + grandparents[to - 1].size
  }

  /** How many grandparents, from the first on, end before the key. */
  function PassedBy(grandparents: seq<TableFile>, key: InternalKey): (p: nat)
    ensures p <= |grandparents|
    ensures forall i :: 0 <= i < p ==> Lt(grandparents[i].Largest(), key)
    ensures p < |grandparents| ==> !Lt(grandparents[p].Largest(), key)
  {
    if grandparents == [] || !Lt(grandparents[0].Largest(), key) then 0 else 1 + PassedBy(grandparents[1..], key)
  }

  lemma PassedByIs(grandparents: seq<TableFile>, key: InternalKey, p: nat)
    requires p <= |grandparents| && forall i :: 0 <= i < p ==> Lt(grandparents[i].Largest(), key)
    requires p < |grandparents| ==> !Lt(grandparents[p].Largest(), key)
    ensures p == PassedBy(grandparents, key)
  {
  }

  /** Total size of the grandparents that are passed on the way from one key to a later one. */
  function PassedBetween(grandparents: seq<TableFile>, a: InternalKey, b: InternalKey): nat {
    var p, q := PassedBy(grandparents, a), PassedBy(grandparents, b);
    if p <= q then BytesBetween(grandparents, p, q) else 0
  }

  /** Whether too many grandparent bytes lie between the key from which they are counted and key `i`. */
  predicate StopsAt(grandparents: seq<TableFile>, limit: nat, input: seq<Entry>, i: nat)
    requires i < |input|
    decreases i, 1
  {
    i > 0 && PassedBetween(grandparents, input[CountedFrom(grandparents, limit, input, i)].k, input[i].k) > limit
  }

  /** Counting for key `i` starts at the last key before it at which the limit was exceeded, or at the
      first key. */
  function CountedFrom(grandparents: seq<TableFile>, limit: nat, input: seq<Entry>, i: nat): (c: nat)
    requires 0 < i <= |input|
    ensures c < i
    decreases i, 0
  {
    if i == 1 then 0
    else if StopsAt(grandparents, limit, input, i - 1) then i - 1
    else CountedFrom(grandparents, limit, input, i - 1)
  }

  lemma CountingGoesOn(grandparents: seq<TableFile>, limit: nat, input: seq<Entry>, i: nat)
    requires i < |input|
    ensures CountedFrom(grandparents, limit, input, i + 1) ==
            if i == 0 then 0 else if StopsAt(grandparents, limit, input, i) then i else CountedFrom(grandparents, limit, input, i)
  {
  }

  class CompactionJob {
    const version: Version
    const level: nat
    const grandparents: seq<TableFile>
    const smallestSnapshot: SequenceNumber
    const maxOutputFileSize: nat
    const maxGrandparentOverlap: nat
    const sizeOf: seq<Entry> -> nat

    /** Per level, the file from which the search for the next key starts. */
    var levelPtrs: seq<nat>
    var grandparentIndex: nat
    var seenKey: bool
    var overlappedBytes: nat
    /** Grandparent file at which counting started for the current output. */
    ghost var countedFrom: nat
    /** For each output, how many entries of the input had been handled when it was closed. */
    ghost var cuts: seq<nat>

    var nextFileNumber: nat
    var outputs: seq<TableFile>
    /** Entries of the open output; there is no open output while it is empty. */
    var builder: seq<Entry>

    ghost predicate Valid()
      reads this
    {
      && level + 1 < NUM_LEVELS
      && (forall l :: level + 2 <= l < NUM_LEVELS ==> SortedLevel(version[l]))
      && |levelPtrs| == NUM_LEVELS
      && countedFrom <= grandparentIndex <= |grandparents|
      && (!seenKey ==> overlappedBytes == 0)
      && overlappedBytes == BytesBetween(grandparents, countedFrom, grandparentIndex)
      && smallestSnapshot < MAX_SEQUENCE
    }

    /** The files already passed end before `u`, hence before every later key. */
    ghost predicate PassedBefore(u: UserKey)
      reads `levelPtrs
      requires |levelPtrs| == NUM_LEVELS
    {
      forall l :: level + 2 <= l < NUM_LEVELS ==>
        levelPtrs[l] <= |version[l]| && forall i :: 0 <= i < levelPtrs[l] ==> version[l][i].Largest().user < u
    }

    constructor (v: Version, inputs: Inputs, snapshot: SequenceNumber, maxOutput: nat, maxOverlap: nat,
                 size: seq<Entry> -> nat, fileNumber: nat)
      requires GoodInputs(v, inputs) && snapshot < MAX_SEQUENCE
      requires forall l :: inputs.level + 2 <= l < NUM_LEVELS ==> SortedLevel(v[l])
      ensures Valid() && outputs == [] && builder == [] && cuts == [] && nextFileNumber == fileNumber
      ensures grandparents == inputs.grandparents && maxGrandparentOverlap == maxOverlap
      ensures grandparentIndex == 0 && !seenKey
      ensures version == v && level == inputs.level && smallestSnapshot == snapshot
      ensures maxOutputFileSize == maxOutput && sizeOf == size && ClosedInTime() && StillOpen()
      ensures forall u :: PassedBefore(u)
    {
      version, level, grandparents := v, inputs.level, inputs.grandparents;
      smallestSnapshot, maxOutputFileSize, maxGrandparentOverlap, sizeOf := snapshot, maxOutput, maxOverlap, size;
      levelPtrs := seq(NUM_LEVELS, _ => 0);
      grandparentIndex, seenKey, overlappedBytes, countedFrom, cuts := 0, false, 0, 0, [];
      nextFileNumber, outputs, builder := fileNumber, [], [];
    }

    /** Keys must be asked for in increasing order; each level's files are then scanned only once. */
    method IsBaseLevelForKey(u: UserKey) returns (b: bool)
      requires Valid() && PassedBefore(u)
      modifies this`levelPtrs
      ensures Valid() && PassedBefore(u)
      ensures b <==> BaseLevel(version, level, u)
    {
      var l := level + 2;
      while l < NUM_LEVELS
        invariant level + 2 <= l <= NUM_LEVELS
        invariant Valid() && PassedBefore(u)
        invariant forall m, i :: level + 2 <= m < l && 0 <= i < |version[m]| ==> !InRange(version[m][i], u)
      {
        var files := version[l];
        while levelPtrs[l] < |files|
          invariant Valid() && PassedBefore(u)
          decreases |files| - levelPtrs[l]
        {
          var f := files[levelPtrs[l]];
          if u <= f.Largest().user {
            if u >= f.Smallest().user {
              assert InRange(version[l][levelPtrs[l]], u);
              return false;
            }
            break;
          }
          levelPtrs := levelPtrs[l := levelPtrs[l] + 1];
        }
        BeyondPointer(files, levelPtrs[l], u);
        l := l + 1;
      }
      b := true;
    }

    /** Whether the open output has come to overlap too many grandparent bytes. */
    method ShouldStopBefore(key: InternalKey) returns (stop: bool)
      requires Valid()
      modifies this`grandparentIndex, this`seenKey, this`overlappedBytes, this`countedFrom
      ensures Valid() && seenKey
      ensures old(grandparentIndex) <= grandparentIndex
      ensures forall i :: old(grandparentIndex) <= i < grandparentIndex ==> Lt(grandparents[i].Largest(), key)
      ensures grandparentIndex < |grandparents| ==> !Lt(grandparents[grandparentIndex].Largest(), key)
      ensures var from := if old(seenKey) then old(countedFrom) else grandparentIndex;
              stop <==> BytesBetween(grandparents, from, grandparentIndex) > maxGrandparentOverlap
      ensures stop ==> overlappedBytes == 0
      ensures countedFrom == if stop || !old(seenKey) then grandparentIndex else old(countedFrom)
    {
      while grandparentIndex < |grandparents| && Compare(key, grandparents[grandparentIndex].Largest()) > 0
        invariant Valid() && old(grandparentIndex) <= grandparentIndex
        invariant old(seenKey) ==> countedFrom == old(countedFrom)
        invariant seenKey == old(seenKey)
        invariant forall i :: old(grandparentIndex) <= i < grandparentIndex ==> Lt(grandparents[i].Largest(), key)
        decreases |grandparents| - grandparentIndex
      {
        if seenKey {
          overlappedBytes := overlappedBytes + grandparents[grandparentIndex].size;
        }
        grandparentIndex := grandparentIndex + 1;
        countedFrom := if seenKey then countedFrom else grandparentIndex;
      }
      if !seenKey {
        countedFrom := grandparentIndex;
      }
      seenKey := true;
      stop := overlappedBytes > maxGrandparentOverlap;
      if stop {
        overlappedBytes := 0;
        countedFrom := grandparentIndex;
      }
    }

    /** Everything written so far. */
    ghost function Written(): seq<Entry>
      reads `outputs, `builder
    {
      Concat(outputs) + builder
    }

    /** Output numbers are fresh and increase. */
    ghost predicate Numbered(first: nat)
      reads `outputs, `nextFileNumber
    {
      && first + |outputs| == nextFileNumber
      && forall i :: 0 <= i < |outputs| ==> outputs[i].number == first + i
    }

    /** A file is closed as soon as it is large enough: it would not have been without its last entry. */
    ghost predicate ClosedInTime()
      reads `outputs, `builder
    {
      && (forall f, n :: f in outputs && 0 < n < |f.entries| ==> sizeOf(f.entries[..n]) < maxOutputFileSize)
      && forall n :: 0 < n < |builder| ==> sizeOf(builder[..n]) < maxOutputFileSize
    }

    ghost predicate StillOpen()
      reads `builder
    {
      builder != [] ==> sizeOf(builder) < maxOutputFileSize
    }

    /** What has survived of the first `n` input entries. */
    ghost function Survivors(input: seq<Entry>, n: nat): seq<Entry>
      requires n <= |input|
    {
      Kept(version, level, input, smallestSnapshot, n)
    }

    predicate Stops(input: seq<Entry>, i: nat)
      requires i < |input|
    {
      StopsAt(grandparents, maxGrandparentOverlap, input, i)
    }

    /** No output was open at a key between the two at which it would have had to be closed. */
    ghost predicate NoStopInside(input: seq<Entry>, a: nat, b: nat)
      requires b <= |input|
    {
      forall j :: a < j < b && Stops(input, j) ==> Survivors(input, j) == Survivors(input, a)
    }

    /** The output has what survived between the two points of the input.  It was closed there because it
        was large enough, or because the grandparents passed had become too many, or at the end; and there
        was no reason to close it earlier. */
    ghost predicate IsCut(input: seq<Entry>, a: nat, b: nat, f: TableFile) {
      && a < b <= |input|
      && Survivors(input, b) == Survivors(input, a) + f.entries
      && (sizeOf(f.entries) >= maxOutputFileSize || b == |input| || Stops(input, b))
      && NoStopInside(input, a, b)
      && forall n :: 0 < n < |f.entries| ==> sizeOf(f.entries[..n]) < maxOutputFileSize
    }

    static ghost function CutBeforeOutput(cs: seq<nat>, k: nat): nat
      requires k <= |cs|
    {
      if k == 0 then 0 else cs[k - 1]
    }

    /** All outputs were cut rightly. */
    ghost predicate CutRightly(cs: seq<nat>, outs: seq<TableFile>, input: seq<Entry>) {
      |cs| == |outs| && forall k :: 0 <= k < |cs| ==> IsCut(input, CutBeforeOutput(cs, k), cs[k], outs[k])
    }

    /** `n` input entries have been handled; the open output has what survived since the last cut. */
    ghost predicate OpenSince(a: nat, open: seq<Entry>, input: seq<Entry>, n: nat)
      requires n <= |input|
    {
      a <= n && Survivors(input, n) == Survivors(input, a) + open && NoStopInside(input, a, n)
    }

    ghost predicate CutsAre(cs: seq<nat>, outs: seq<TableFile>, open: seq<Entry>, input: seq<Entry>, n: nat) {
      n <= |input| && CutRightly(cs, outs, input) && OpenSince(CutBeforeOutput(cs, |cs|), open, input, n)
    }

    ghost predicate CutSoFar(input: seq<Entry>, n: nat)
      reads `cuts, `outputs, `builder
    {
      CutsAre(cuts, outputs, builder, input, n)
    }

    lemma NothingCut(input: seq<Entry>)
      ensures CutsAre([], [], [], input, 0)
    {
    }

    lemma OneMoreCut(cs: seq<nat>, outs: seq<TableFile>, input: seq<Entry>, n: nat, f: TableFile)
      requires CutRightly(cs, outs, input) && IsCut(input, CutBeforeOutput(cs, |cs|), n, f)
      ensures CutRightly(cs + [n], outs + [f], input)
    {
      hide IsCut;
      forall k | 0 <= k < |cs + [n]| ensures IsCut(input, CutBeforeOutput(cs + [n], k), (cs + [n])[k], (outs + [f])[k]) {
        if k < |cs| {
          assert IsCut(input, CutBeforeOutput(cs, k), cs[k], outs[k]);
        }
      }
    }

    /** The open output may be closed for one of the reasons there are. */
    lemma OpenIsCut(a: nat, open: seq<Entry>, input: seq<Entry>, n: nat, f: TableFile)
      requires n <= |input| && OpenSince(a, open, input, n) && f.entries == open && open != []
      requires sizeOf(open) >= maxOutputFileSize || n == |input| || Stops(input, n)
      requires forall m :: 0 < m < |open| ==> sizeOf(open[..m]) < maxOutputFileSize
      ensures IsCut(input, a, n, f) && OpenSince(n, [], input, n)
    {
      hide Kept, StopsAt;
      assert |Survivors(input, n)| == |Survivors(input, a)| + |open|;
      assert a != n;
      assert Survivors(input, n) + [] == Survivors(input, n);
    }

    lemma CloseCut(cs: seq<nat>, outs: seq<TableFile>, open: seq<Entry>, input: seq<Entry>, n: nat, f: TableFile)
      requires CutsAre(cs, outs, open, input, n) && n <= |input| && f.entries == open && open != []
      requires sizeOf(open) >= maxOutputFileSize || n == |input| || Stops(input, n)
      requires forall m :: 0 < m < |open| ==> sizeOf(open[..m]) < maxOutputFileSize
      ensures CutsAre(cs + [n], outs + [f], [], input, n)
    {
      hide IsCut, OpenSince, CutRightly, Stops;
      OpenIsCut(CutBeforeOutput(cs, |cs|), open, input, n, f);
      OneMoreCut(cs, outs, input, n, f);
      assert CutBeforeOutput(cs + [n], |cs + [n]|) == n;
    }

    /** One more survivor, when no output is open at a key at which it would have to be closed. */
    lemma OneMoreOpen(cs: seq<nat>, outs: seq<TableFile>, open: seq<Entry>, input: seq<Entry>, i: nat, more: seq<Entry>)
      requires CutsAre(cs, outs, open, input, i) && i < |input| && (Stops(input, i) ==> open == [])
      requires Survivors(input, i + 1) == Survivors(input, i) + more
      ensures CutsAre(cs, outs, open + more, input, i + 1)
    {
      hide Kept, StopsAt, CutRightly;
    }

    /** Closes the open output under a fresh number. */
    method FinishOutputFile(ghost first: nat)
      requires Valid() && builder != [] && Sorted(builder) && Numbered(first) && ClosedInTime()
      modifies this`outputs, this`builder, this`nextFileNumber
      ensures Valid() && Numbered(first) && ClosedInTime()
      ensures builder == [] && Written() == old(Written())
      ensures |outputs| == |old(outputs)| + 1 && outputs == old(outputs) + [outputs[|old(outputs)|]]
      ensures outputs[|old(outputs)|].entries == old(builder)
    {
      var f: TableFile := File(nextFileNumber, sizeOf(builder), builder);
      outputs := outputs + [f];
      assert outputs[..|outputs| - 1] == old(outputs);
      nextFileNumber := nextFileNumber + 1;
      builder := [];
      assert Concat(outputs) == Concat(old(outputs)) + f.entries;
    }

    /** Closes the open output where there is a reason to. */
    method CloseAt(ghost first: nat, ghost input: seq<Entry>, ghost n: nat)
      requires Valid() && builder != [] && Sorted(builder) && Numbered(first) && ClosedInTime()
      requires CutSoFar(input, n) && n <= |input| && (sizeOf(builder) >= maxOutputFileSize || n == |input| || Stops(input, n))
      modifies this`outputs, this`builder, this`nextFileNumber, this`cuts
      ensures Valid() && Numbered(first) && ClosedInTime() && CutSoFar(input, n)
      ensures builder == [] && Written() == old(Written())
    {
      hide CutsAre, Stops, Concat, Sorted, SortedLevel, BytesBetween;
      FinishOutputFile(first);
      CloseCut(cuts, old(outputs), old(builder), input, n, outputs[|old(outputs)|]);
      cuts := cuts + [n];
    }

    /** Appends a surviving entry, closing the output once it is large enough. */
    method Emit(e: Entry, ghost first: nat, ghost input: seq<Entry>, ghost i: nat)
      requires Valid() && Numbered(first) && ClosedInTime() && StillOpen() && Sorted(Written() + [e])
      requires i < |input| && CutSoFar(input, i) && (Stops(input, i) ==> builder == []) && Survivors(input, i + 1) == Survivors(input, i) + [e]
      modifies this`outputs, this`builder, this`nextFileNumber, this`cuts
      ensures Valid() && Numbered(first) && ClosedInTime() && StillOpen() && CutSoFar(input, i + 1)
      ensures Written() == old(Written()) + [e]
    {
      assert Written() + [e] == Concat(outputs) + (builder + [e]);
      SortedSuffix(Concat(outputs), builder + [e]);
      OneMoreOpen(cuts, outputs, builder, input, i, [e]);
      hide Kept, StopsAt, CutsAre;
      builder := builder + [e];
      assert Written() == old(Written()) + [e];
      assert forall n :: 0 < n < |builder| ==> builder[..n] == old(builder)[..n];
      assert old(builder)[..|old(builder)|] == old(builder);
      if sizeOf(builder) >= maxOutputFileSize {
        CloseAt(first, input, i + 1);
      }
    }

    /** Decides about one entry, given the sequence number of the entry of the same key before it. */
    method Decide(e: Entry, lastSequenceForKey: SequenceNumber) returns (drop: bool)
      requires Valid() && PassedBefore(e.k.user)
      modifies this`levelPtrs
      ensures Valid() && PassedBefore(e.k.user)
      ensures drop <==> lastSequenceForKey <= smallestSnapshot || Obsolete(version, level, e, smallestSnapshot)
    {
      drop := false;
      if lastSequenceForKey <= smallestSnapshot {
        drop := true;
      } else if e.k.kind.Deletion? && e.k.seqno <= smallestSnapshot {
        drop := IsBaseLevelForKey(e.k.user);
      }
    }

    /** The loop's own variables describe the input entry just handled. */
    ghost predicate After(input: seq<Entry>, i: nat, currentUserKey: Option<UserKey>, lastSequenceForKey: SequenceNumber)
      reads this
      requires i <= |input|
    {
      && Valid() && ClosedInTime() && StillOpen()
      && Written() == Kept(version, level, input, smallestSnapshot, i)
      && CutSoFar(input, i) && Counting(input, i)
      && (if i == 0 then currentUserKey == None && forall u :: PassedBefore(u)
          else currentUserKey == Some(input[i - 1].k.user) && lastSequenceForKey == input[i - 1].k.seqno
               && PassedBefore(input[i - 1].k.user))
    }

    /** The grandparents counted so far are those that the handled keys have passed. */
    ghost predicate Counting(input: seq<Entry>, i: nat)
      reads `seenKey, `grandparentIndex, `countedFrom
      requires i <= |input|
    {
      && (seenKey <==> i > 0)
      && grandparentIndex == (if i == 0 then 0 else PassedBy(grandparents, input[i - 1].k))
      && (i > 0 ==> countedFrom == PassedBy(grandparents, input[CountedFrom(grandparents, maxGrandparentOverlap, input, i)].k))
    }

    /** The scan over the grandparents answers whether the limit is exceeded at the key. */
    method AskToStop(input: seq<Entry>, i: nat) returns (stop: bool)
      requires Valid() && Sorted(input) && i < |input| && Counting(input, i)
      modifies this`grandparentIndex, this`seenKey, this`overlappedBytes, this`countedFrom
      ensures Valid() && Counting(input, i + 1) && stop == Stops(input, i)
    {
      ghost var p := grandparentIndex;
      stop := ShouldStopBefore(input[i].k);
      forall j | 0 <= j < grandparentIndex ensures Lt(grandparents[j].Largest(), input[i].k) {
        if j < p {
          assert Lt(input[i - 1].k, input[i].k);
        }
      }
      PassedByIs(grandparents, input[i].k, grandparentIndex);
      hide PassedBy, Sorted, SortedLevel;
      assert stop == Stops(input, i);
      CountingGoesOn(grandparents, maxGrandparentOverlap, input, i);
      hide StopsAt, CountedFrom;
    }

    /** Closes the open output if it has come to overlap too many grandparent bytes. */
    method CutBefore(input: seq<Entry>, i: nat, ghost first: nat)
      requires Valid() && Numbered(first) && ClosedInTime() && StillOpen() && Sorted(Written())
      requires Sorted(input) && i < |input| && Counting(input, i) && CutSoFar(input, i)
      modifies this`grandparentIndex, this`seenKey, this`overlappedBytes, this`countedFrom, this`outputs, this`builder, this`nextFileNumber,
        this`cuts
      ensures Valid() && Numbered(first) && ClosedInTime() && StillOpen()
      ensures Written() == old(Written())
      ensures Counting(input, i + 1) && CutSoFar(input, i) && (Stops(input, i) ==> builder == [])
    {
      hide PassedBy, Kept, StopsAt, CutsAre, SortedLevel, CountedFrom;
      var stop := AskToStop(input, i);
      if stop && builder != [] {
        SortedSuffix(Concat(outputs), builder);
        CloseAt(first, input, i);
      }
    }

    lemma SurvivorsStep(input: seq<Entry>, i: nat)
      requires i < |input|
      ensures Survivors(input, i + 1) == Survivors(input, i) + if Dropped(version, level, input, i, smallestSnapshot) then [] else [input[i]]
    {
    }

    /** Passes over an entry or puts it into the output. */
    method Settle(input: seq<Entry>, i: nat, drop: bool, ghost first: nat)
      requires Valid() && Sorted(input) && i < |input| && Numbered(first) && ClosedInTime() && StillOpen()
      requires drop == Dropped(version, level, input, i, smallestSnapshot) && Written() == Survivors(input, i)
      requires CutSoFar(input, i) && (Stops(input, i) ==> builder == [])
      modifies this`outputs, this`builder, this`nextFileNumber, this`cuts
      ensures Valid() && Numbered(first) && ClosedInTime() && StillOpen()
      ensures CutSoFar(input, i + 1) && Written() == Survivors(input, i + 1)
    {
      SurvivorsStep(input, i);
      KeptSorted(version, level, input, smallestSnapshot, i + 1);
      hide Concat, Sorted, SortedLevel, Valid, ClosedInTime, Numbered, CutsAre, StopsAt, Kept, Dropped;
      if drop {
        assert builder + [] == builder && Survivors(input, i) + [] == Survivors(input, i);
        OneMoreOpen(cuts, outputs, builder, input, i, []);
      } else {
        Emit(input[i], first, input, i);
      }
    }

    /** What a round starts from. */
    lemma RoundStarts(input: seq<Entry>, i: nat, currentUserKey: Option<UserKey>, lastSequenceForKey: SequenceNumber)
      requires Sorted(input) && i < |input| && After(input, i, currentUserKey, lastSequenceForKey)
      ensures Valid() && ClosedInTime() && StillOpen() && Written() == Survivors(input, i) && Sorted(Written())
      ensures CutSoFar(input, i) && Counting(input, i) && PassedBefore(input[i].k.user)
      ensures var u := input[i].k.user;
              Hidden(input, i, smallestSnapshot) <==> (if currentUserKey != Some(u) then MAX_SEQUENCE else lastSequenceForKey) <= smallestSnapshot
    {
      KeptSorted(version, level, input, smallestSnapshot, i);
      PassedBeforeLater(input, i);
      hide Kept, Sorted, CutsAre, StopsAt, PassedBefore, Concat, BytesBetween, SortedLevel;
    }

    /** And what it ends with. */
    lemma RoundEnds(input: seq<Entry>, i: nat)
      requires i < |input| && Valid() && ClosedInTime() && StillOpen() && Written() == Survivors(input, i + 1)
      requires CutSoFar(input, i + 1) && Counting(input, i + 1) && PassedBefore(input[i].k.user)
      ensures After(input, i + 1, Some(input[i].k.user), input[i].k.seqno)
    {
      hide Kept, Valid, CutsAre, StopsAt, PassedBefore, Concat, ClosedInTime, Counting;
    }

    /** One round of the main loop. */
    method Process(input: seq<Entry>, i: nat, currentUserKey: Option<UserKey>, lastSequenceForKey: SequenceNumber,
                   ghost first: nat)
      requires Sorted(input) && i < |input| && After(input, i, currentUserKey, lastSequenceForKey) && Numbered(first)
      modifies this
      ensures After(input, i + 1, Some(input[i].k.user), input[i].k.seqno) && Numbered(first)
    {
      RoundStarts(input, i, currentUserKey, lastSequenceForKey);
      hide After, Concat, Obsolete, Hidden, Sorted, SortedLevel, Valid, ClosedInTime, Numbered, CutSoFar, Counting, StopsAt, Kept, PassedBefore, Written;
      var e := input[i];
      CutBefore(input, i, first);
      var last: SequenceNumber := if currentUserKey != Some(e.k.user) then MAX_SEQUENCE else lastSequenceForKey;
      var drop := Decide(e, last);
      Settle(input, i, drop, first);
      RoundEnds(input, i);
    }

    /** The main loop: walks the merged inputs once, drops what the rules allow and cuts the rest
        into output files. */
    method Run(input: seq<Entry>)
      requires Valid() && Sorted(input) && outputs == [] && builder == [] && cuts == [] && Counting(input, 0)
      requires forall u :: PassedBefore(u)
      modifies this
      ensures Valid() && builder == [] && ClosedInTime()
      ensures Concat(outputs) == Kept(version, level, input, smallestSnapshot, |input|)
      ensures Numbered(old(nextFileNumber)) && CutRightly(cuts, outputs, input)
    {
      ghost var first := nextFileNumber;
      var currentUserKey: Option<UserKey> := None;
      var lastSequenceForKey: SequenceNumber := MAX_SEQUENCE;
      NothingCut(input);
      for i := 0 to |input|
        invariant After(input, i, currentUserKey, lastSequenceForKey) && Numbered(first)
      {
        Process(input, i, currentUserKey, lastSequenceForKey, first);
        currentUserKey, lastSequenceForKey := Some(input[i].k.user), input[i].k.seqno;
      }
      if builder != [] {
        KeptSorted(version, level, input, smallestSnapshot, |input|);
        SortedSuffix(Concat(outputs), builder);
        CloseAt(first, input, |input|);
      }
    }

    /** Keys come in increasing order, so what was passed for one key stays passed for the next. */
    lemma PassedBeforeLater(input: seq<Entry>, i: nat)
      requires |levelPtrs| == NUM_LEVELS && Sorted(input) && i < |input|
      requires i == 0 ==> forall u :: PassedBefore(u)
      requires i > 0 ==> PassedBefore(input[i - 1].k.user)
      ensures PassedBefore(input[i].k.user)
    {
      if i > 0 {
        assert Lt(input[i - 1].k, input[i].k);
      }
    }
  }

  lemma SortedSuffix(a: seq<Entry>, b: seq<Entry>)
    ensures Sorted(a + b) ==> Sorted(b)
  {
    if Sorted(a + b) {
      forall i, j | 0 <= i < j < |b| ensures Lt(b[i].k, b[j].k) {
        assert b[i] == (a + b)[|a| + i] && b[j] == (a + b)[|a| + j];
      }
    }
  }

  lemma BeyondPointer(files: seq<TableFile>, p: nat, u: UserKey)
    requires SortedLevel(files) && p <= |files|
    requires forall i :: 0 <= i < p ==> files[i].Largest().user < u
    requires p < |files| ==> u < files[p].Smallest().user
    ensures forall i :: 0 <= i < |files| ==> !InRange(files[i], u)
  {
    forall i | p < i < |files| ensures !InRange(files[i], u) {
      LaterIsLarger(files, p, i, files[p].entries[0], files[i].entries[0]);
    }
  }
}
