/** Version edits, and the builder that applies a whole list of them without building the versions
    in between. */
module VersionBuilder {
  import opened Entries
  import opened Versions

  /** The change to one version.  Files and numbers are paired with their level. */
  datatype VersionEdit = VersionEdit(
    logNumber: Option<nat>,
    nextFileNumber: Option<nat>,
    lastSequence: Option<SequenceNumber>,
    deletedFiles: seq<(nat, nat)>,
    newFiles: seq<(nat, TableFile)>)

  /** Levels named by an edit exist. */
  predicate LevelsExist(edit: VersionEdit) {
    && (forall i :: 0 <= i < |edit.deletedFiles| ==> edit.deletedFiles[i].0 < NUM_LEVELS)
    && (forall i :: 0 <= i < |edit.newFiles| ==> edit.newFiles[i].0 < NUM_LEVELS)
  }

  ghost function DeletedAt(edit: VersionEdit, level: nat): set<nat> {
    set p | p in edit.deletedFiles && p.0 == level :: p.1
  }

  ghost function NewAt(edit: VersionEdit, level: nat): set<TableFile> {
    set p | p in edit.newFiles && p.0 == level :: p.1
  }

  ghost function Numbers(files: set<TableFile>): set<nat> {
    set f | f in files :: f.number
  }

  /** A file number names one file. */
  ghost predicate Identified(files: set<TableFile>) {
    forall f, g :: f in files && g in files && f.number == g.number ==> f == g
  }

  // ----- Files in order of their smallest key -----

  predicate BySmallest(f: TableFile, g: TableFile) {
    var r := Compare(f.Smallest(), g.Smallest());
    if r != 0 then r < 0 else f.number < g.number
  }

  lemma BySmallestTransitive(f: TableFile, g: TableFile, h: TableFile)
    requires BySmallest(f, g) && BySmallest(g, h)
    ensures BySmallest(f, h)
  {
  }

  ghost predicate Ordered(files: seq<TableFile>) {
    forall i, j :: 0 <= i < j < |files| ==> BySmallest(files[i], files[j])
  }

  lemma OrderedTail(files: seq<TableFile>)
    requires Ordered(files) && files != []
    ensures Ordered(files[1..]) && files[0] !in files[1..]
    ensures forall f :: f in files[1..] ==> BySmallest(files[0], f)
    ensures ToSet(files) == {files[0]} + ToSet(files[1..])
  {
    assert files == [files[0]] + files[1..];
    forall f | f in files[1..] ensures BySmallest(files[0], f) {
      var i :| 1 <= i < |files| && files[i] == f;
    }
  }

  lemma OrderedCons(f: TableFile, files: seq<TableFile>)
    requires Ordered(files) && forall g :: g in files ==> BySmallest(f, g)
    ensures Ordered([f] + files)
  {
    forall i, j | 0 <= i < j < |files| + 1 ensures BySmallest(([f] + files)[i], ([f] + files)[j]) {
      if i == 0 {
        assert files[j - 1] in files;
      }
    }
  }

  lemma EmptySet(files: seq<TableFile>)
    ensures files == [] <==> ToSet(files) == {}
  {
    assert files != [] ==> files[0] in ToSet(files);
  }

  /** An ordered list is determined by the files in it. */
  lemma {:induction false} OrderedIsUnique(a: seq<TableFile>, b: seq<TableFile>)
    requires Ordered(a) && Ordered(b) && ToSet(a) == ToSet(b)
    ensures a == b
  {
    EmptySet(a);
    EmptySet(b);
    if a != [] && b != [] {
      OrderedTail(a);
      OrderedTail(b);
      assert a[0] in ToSet(b) && b[0] in ToSet(a);
      assert a[0] == b[0];
      assert ToSet(a[1..]) == ToSet(a) - {a[0]};
      OrderedIsUnique(a[1..], b[1..]);
      assert a == [a[0]] + a[1..] && b == [b[0]] + b[1..];
    }
  }

  // ----- Merging and dropping -----

  /** Base files come first among equals. */
  function Merge(base: seq<TableFile>, added: seq<TableFile>): seq<TableFile>
    decreases |base| + |added|
  {
    if added == [] then base
    else if base != [] && !BySmallest(added[0], base[0]) then [base[0]] + Merge(base[1..], added)
    else [added[0]] + Merge(base, added[1..])
  }

  function Without(files: seq<TableFile>, deleted: set<nat>): seq<TableFile> {
    if files == [] then []
    else (if files[0].number in deleted then [] else [files[0]]) + Without(files[1..], deleted)
  }

  lemma {:induction false} WithoutMembers(files: seq<TableFile>, deleted: set<nat>)
    ensures forall f :: f in Without(files, deleted) <==> f in files && f.number !in deleted
  {
    if files != [] {
      assert files == [files[0]] + files[1..];
      WithoutMembers(files[1..], deleted);
    }
  }

  lemma {:induction false} WithoutOrdered(files: seq<TableFile>, deleted: set<nat>)
    requires Ordered(files)
    ensures Ordered(Without(files, deleted))
  {
    if files != [] {
      OrderedTail(files);
      WithoutOrdered(files[1..], deleted);
      WithoutMembers(files[1..], deleted);
      OrderedCons(files[0], Without(files[1..], deleted));
    }
  }

  lemma {:induction false} MergeMembers(base: seq<TableFile>, added: seq<TableFile>)
    ensures forall f :: f in Merge(base, added) <==> f in base || f in added
    decreases |base| + |added|
  {
    if added != [] {
      assert added == [added[0]] + added[1..];
      if base != [] && !BySmallest(added[0], base[0]) {
        assert base == [base[0]] + base[1..];
        MergeMembers(base[1..], added);
      } else {
        MergeMembers(base, added[1..]);
      }
    }
  }

  lemma {:induction false} MergeOrdered(base: seq<TableFile>, added: seq<TableFile>)
    requires Ordered(base) && Ordered(added)
    requires Identified(ToSet(base) + ToSet(added)) && ToSet(base) !! ToSet(added)
    ensures Ordered(Merge(base, added))
    decreases |base| + |added|
  {
    if added != [] {
      OrderedTail(added);
      if base != [] && !BySmallest(added[0], base[0]) {
        OrderedTail(base);
        assert base[0] in ToSet(base) && added[0] in ToSet(added);
        assert BySmallest(base[0], added[0]);
        MergeOrdered(base[1..], added);
        MergeMembers(base[1..], added);
        forall f | f in Merge(base[1..], added) ensures BySmallest(base[0], f) {
          if f in added && f != added[0] {
            BySmallestTransitive(base[0], added[0], f);
          }
        }
        OrderedCons(base[0], Merge(base[1..], added));
      } else {
        MergeOrdered(base, added[1..]);
        MergeMembers(base, added[1..]);
        forall f | f in Merge(base, added[1..]) ensures BySmallest(added[0], f) {
          if base != [] && f in base {
            OrderedTail(base);
            if f != base[0] {
              BySmallestTransitive(added[0], base[0], f);
            }
          }
        }
        OrderedCons(added[0], Merge(base, added[1..]));
      }
    }
  }

  /** What `SaveTo` makes of one level. */
  function SaveLevel(base: seq<TableFile>, added: seq<TableFile>, deleted: set<nat>): seq<TableFile> {
    Without(Merge(base, added), deleted)
  }

  lemma SaveLevelMembers(base: seq<TableFile>, added: seq<TableFile>, deleted: set<nat>)
    ensures forall f :: f in SaveLevel(base, added, deleted) <==> (f in base || f in added) && f.number !in deleted
  {
    MergeMembers(base, added);
    WithoutMembers(Merge(base, added), deleted);
  }

  lemma MergeTakesBase(f: TableFile, base: seq<TableFile>, added: seq<TableFile>)
    requires forall g :: g in added ==> !BySmallest(g, f)
    ensures Merge([f] + base, added) == [f] + Merge(base, added)
  {
    assert ([f] + base)[1..] == base;
    assert added != [] ==> added[0] in added;
  }

  lemma MergeTakesAdded(f: TableFile, base: seq<TableFile>, added: seq<TableFile>)
    requires forall g :: g in base ==> BySmallest(f, g)
    ensures Merge(base, [f] + added) == [f] + Merge(base, added)
  {
    assert ([f] + added)[1..] == added;
    assert base != [] ==> base[0] in base;
  }

  lemma WithoutCons(f: TableFile, files: seq<TableFile>, deleted: set<nat>)
    ensures Without([f] + files, deleted) ==
            if f.number in deleted then Without(files, deleted) else [f] + Without(files, deleted)
  {
    assert ([f] + files)[1..] == files;
  }

  lemma WithoutMergeBase(f: TableFile, base: seq<TableFile>, added: seq<TableFile>, deleted: set<nat>)
    requires forall g :: g in added ==> !BySmallest(g, f)
    requires Without(Merge(base, added), deleted) == Merge(Without(base, deleted), Without(added, deleted))
    ensures Without(Merge([f] + base, added), deleted) == Merge(Without([f] + base, deleted), Without(added, deleted))
  {
    MergeTakesBase(f, base, added);
    WithoutCons(f, Merge(base, added), deleted);
    WithoutCons(f, base, deleted);
    WithoutMembers(added, deleted);
    MergeTakesBase(f, Without(base, deleted), Without(added, deleted));
  }

  lemma WithoutMergeAdded(f: TableFile, base: seq<TableFile>, added: seq<TableFile>, deleted: set<nat>)
    requires forall g :: g in base ==> BySmallest(f, g)
    requires Without(Merge(base, added), deleted) == Merge(Without(base, deleted), Without(added, deleted))
    ensures Without(Merge(base, [f] + added), deleted) == Merge(Without(base, deleted), Without([f] + added, deleted))
  {
    MergeTakesAdded(f, base, added);
    WithoutCons(f, Merge(base, added), deleted);
    WithoutCons(f, added, deleted);
    WithoutMembers(base, deleted);
    MergeTakesAdded(f, Without(base, deleted), Without(added, deleted));
  }

  lemma {:induction false} WithoutMerge(base: seq<TableFile>, added: seq<TableFile>, deleted: set<nat>)
    requires Ordered(base) && Ordered(added)
    ensures Without(Merge(base, added), deleted) == Merge(Without(base, deleted), Without(added, deleted))
    decreases |base| + |added|
  {
    if added != [] {
      if base != [] && !BySmallest(added[0], base[0]) {
        OrderedTail(base);
        assert base == [base[0]] + base[1..];
        NoneBefore(base[0], added);
        WithoutMerge(base[1..], added, deleted);
        WithoutMergeBase(base[0], base[1..], added, deleted);
      } else {
        OrderedTail(added);
        assert added == [added[0]] + added[1..];
        AllBehind(added[0], base);
        WithoutMerge(base, added[1..], deleted);
        WithoutMergeAdded(added[0], base, added[1..], deleted);
      }
    }
  }

  lemma NoneBefore(f: TableFile, files: seq<TableFile>)
    requires Ordered(files) && files != [] && !BySmallest(files[0], f)
    ensures forall g :: g in files ==> !BySmallest(g, f)
  {
    OrderedTail(files);
    forall g | g in files[1..] ensures !BySmallest(g, f) {
      if BySmallest(g, f) {
        BySmallestTransitive(files[0], g, f);
      }
    }
  }

  lemma AllBehind(f: TableFile, files: seq<TableFile>)
    requires Ordered(files) && (files != [] ==> BySmallest(f, files[0]))
    ensures forall g :: g in files ==> BySmallest(f, g)
  {
    if files != [] {
      OrderedTail(files);
      forall g | g in files[1..] ensures BySmallest(f, g) {
        BySmallestTransitive(f, files[0], g);
      }
    }
  }

  /** A file the base already has is alive and was added again. */
  ghost predicate AddedTwice(base: seq<TableFile>, added: set<TableFile>, deleted: set<nat>) {
    exists f :: f in base && f in added && f.number !in deleted
  }

  lemma {:induction false} MergeCounts(a: seq<TableFile>, b: seq<TableFile>)
    ensures multiset(Merge(a, b)) == multiset(a) + multiset(b)
    decreases |a| + |b|
  {
    if b != [] {
      assert b == [b[0]] + b[1..];
      if a != [] && !BySmallest(b[0], a[0]) {
        assert a == [a[0]] + a[1..];
        MergeCounts(a[1..], b);
      } else {
        MergeCounts(a, b[1..]);
      }
    }
  }

  lemma {:induction false} OrderedListsOnce(a: seq<TableFile>, f: TableFile)
    requires Ordered(a)
    ensures multiset(a)[f] <= 1
  {
    if a != [] {
      assert a == [a[0]] + a[1..];
      OrderedTail(a);
      OrderedListsOnce(a[1..], f);
    }
  }

  lemma OrderedMergeIsDisjoint(a: seq<TableFile>, b: seq<TableFile>)
    requires Ordered(Merge(a, b))
    ensures ToSet(a) !! ToSet(b)
  {
    MergeCounts(a, b);
    forall f | f in a ensures f !in b {
      OrderedListsOnce(Merge(a, b), f);
    }
  }

  lemma SaveLevelOrdered(base: seq<TableFile>, added: seq<TableFile>, deleted: set<nat>)
    requires Ordered(base) && Ordered(added) && Identified(ToSet(base) + ToSet(added))
    ensures Ordered(SaveLevel(base, added, deleted)) <==> !AddedTwice(base, ToSet(added), deleted)
  {
    var wb, wa := Without(base, deleted), Without(added, deleted);
    WithoutMerge(base, added, deleted);
    WithoutOrdered(base, deleted);
    WithoutOrdered(added, deleted);
    WithoutMembers(base, deleted);
    WithoutMembers(added, deleted);
    DisjointIffNotTwice(base, added, deleted);
    if Ordered(Merge(wb, wa)) {
      OrderedMergeIsDisjoint(wb, wa);
    } else if ToSet(wb) !! ToSet(wa) {
      MergeOrdered(wb, wa);
    }
  }

  lemma DisjointIffNotTwice(base: seq<TableFile>, added: seq<TableFile>, deleted: set<nat>)
    ensures ToSet(Without(base, deleted)) !! ToSet(Without(added, deleted)) <==> !AddedTwice(base, ToSet(added), deleted)
  {
    WithoutMembers(base, deleted);
    WithoutMembers(added, deleted);
    if AddedTwice(base, ToSet(added), deleted) {
      var f :| f in base && f in added && f.number !in deleted;
      assert f in ToSet(Without(base, deleted)) && f in ToSet(Without(added, deleted));
    }
  }

  // ----- The builder -----

  /** All files that a level of a builder has heard of. */
  ghost predicate KnownFiles(base: seq<TableFile>, added: set<TableFile>, more: set<TableFile>) {
    Identified(ToSet(base) + added + more)
  }

  class Builder {
    const base: Version
    var deleted: seq<set<nat>>
    /** Per level an ordered set of files. */
    var added: seq<seq<TableFile>>

    ghost predicate Valid()
      reads this
    {
      && |deleted| == NUM_LEVELS && |added| == NUM_LEVELS
      && forall l :: 0 <= l < NUM_LEVELS ==>
           Ordered(base[l]) && Ordered(added[l]) && Identified(ToSet(base[l]) + ToSet(added[l]))
    }

    constructor (v: Version)
      requires forall l :: 0 <= l < NUM_LEVELS ==> Ordered(v[l]) && Identified(ToSet(v[l]))
      ensures Valid() && base == v
      ensures forall l :: 0 <= l < NUM_LEVELS ==> deleted[l] == {} && added[l] == []
    {
      base := v;
      deleted, added := seq(NUM_LEVELS, _ => {}), seq(NUM_LEVELS, _ => []);
      new;
      forall l | 0 <= l < NUM_LEVELS ensures ToSet(base[l]) + ToSet(added[l]) == ToSet(base[l]) {
      }
    }

    /** Puts `f` into an ordered set of files, where an equal file may be already. */
    static method Insert(files: seq<TableFile>, f: TableFile) returns (r: seq<TableFile>)
      requires Ordered(files) && forall g :: g in files && g.number == f.number ==> g == f
      ensures Ordered(r) && ToSet(r) == ToSet(files) + {f}
    {
      var i := 0;
      while i < |files| && BySmallest(files[i], f)
        invariant 0 <= i <= |files|
        invariant forall j :: 0 <= j < i ==> BySmallest(files[j], f)
      {
        i := i + 1;
      }
      if i < |files| && !BySmallest(f, files[i]) {
        return files;
      }
      r := files[..i] + [f] + files[i..];
      Inserted(files, i, f);
    }

    static lemma Inserted(files: seq<TableFile>, i: nat, f: TableFile)
      requires Ordered(files) && i <= |files|
      requires forall j :: 0 <= j < i ==> BySmallest(files[j], f)
      requires i < |files| ==> BySmallest(f, files[i])
      ensures var r := files[..i] + [f] + files[i..];
              Ordered(r) && ToSet(r) == ToSet(files) + {f}
    {
      assert files == files[..i] + files[i..];
      AllBehind(f, files[i..]);
      forall j | i <= j < |files| ensures BySmallest(f, files[j]) {
        assert files[j] == files[i..][j - i];
      }
    }

    method DeleteFiles(edit: VersionEdit)
      requires Valid() && LevelsExist(edit)
      modifies this`deleted
      ensures Valid()
      ensures forall l :: 0 <= l < NUM_LEVELS ==> deleted[l] == old(deleted[l]) + DeletedAt(edit, l)
    {
      for i := 0 to |edit.deletedFiles|
        invariant Valid()
        invariant forall l :: 0 <= l < NUM_LEVELS ==>
                    deleted[l] == old(deleted[l]) + DeletedAt(edit.(deletedFiles := edit.deletedFiles[..i]), l)
      {
        var (level, number) := edit.deletedFiles[i];
        deleted := deleted[level := deleted[level] + {number}];
        assert edit.deletedFiles[..i + 1] == edit.deletedFiles[..i] + [edit.deletedFiles[i]];
      }
      assert edit.deletedFiles[..|edit.deletedFiles|] == edit.deletedFiles;
    }

    method AddFile(level: nat, f: TableFile)
      requires Valid() && level < NUM_LEVELS
      requires KnownFiles(base[level], ToSet(added[level]), {f})
      modifies this
      ensures Valid()
      ensures forall l :: 0 <= l < NUM_LEVELS && l != level ==> deleted[l] == old(deleted[l]) && added[l] == old(added[l])
      ensures deleted[level] == old(deleted[level]) - {f.number}
      ensures ToSet(added[level]) == ToSet(old(added[level])) + {f}
    {
      deleted := deleted[level := deleted[level] - {f.number}];
      var files := Insert(added[level], f);
      added := added[level := files];
    }

    /** The first `n` new files of an edit have been taken in, starting from `del0` and `add0`. */
    ghost predicate TakenIn(edit: VersionEdit, n: nat, del0: seq<set<nat>>, add0: seq<seq<TableFile>>)
      reads this
      requires n <= |edit.newFiles| && |del0| == |add0| == NUM_LEVELS
    {
      && Valid()
      && forall l :: 0 <= l < NUM_LEVELS ==> Added(edit, n, l, del0[l], add0[l], deleted[l], added[l])
    }

    method AddNext(edit: VersionEdit, n: nat, ghost del0: seq<set<nat>>, ghost add0: seq<seq<TableFile>>)
      requires n < |edit.newFiles| && LevelsExist(edit) && |del0| == |add0| == NUM_LEVELS && TakenIn(edit, n, del0, add0)
      requires forall l :: 0 <= l < NUM_LEVELS ==> KnownFiles(base[l], ToSet(add0[l]), NewAt(edit, l))
      modifies this
      ensures TakenIn(edit, n + 1, del0, add0)
    {
      var (level, f) := edit.newFiles[n];
      KnownSoFar(edit, n, base[level], add0[level], added[level]);
      ghost var del, add := deleted, added;
      AddFile(level, f);
      forall l | 0 <= l < NUM_LEVELS ensures Added(edit, n + 1, l, del0[l], add0[l], deleted[l], added[l]) {
        AddedStep(edit, n, l, del0[l], add0[l], del[l], add[l], deleted[l], added[l]);
      }
    }

    /** Applies all changes of an edit: deletions first, then new files, which undo a deletion. */
    method Apply(edit: VersionEdit)
      requires Valid() && LevelsExist(edit)
      requires forall l :: 0 <= l < NUM_LEVELS ==> KnownFiles(base[l], ToSet(added[l]), NewAt(edit, l))
      modifies this
      ensures Valid()
      ensures forall l :: 0 <= l < NUM_LEVELS ==> Applied(edit, l, old(deleted[l]), old(added[l]), deleted[l], added[l])
    {
      NothingTakenIn(edit);
      hide NewAt, DeletedAt, KnownFiles, Numbers, ToSet;
      DeleteFiles(edit);
      ghost var del0, add0 := deleted, added;
      assert TakenIn(edit, 0, del0, add0);
      for i := 0 to |edit.newFiles|
        invariant TakenIn(edit, i, del0, add0)
      {
        AddNext(edit, i, del0, add0);
      }
      assert Upto(edit, |edit.newFiles|) == edit;
    }

    static lemma KnownSoFar(edit: VersionEdit, n: nat, files: seq<TableFile>, add0: seq<TableFile>, add: seq<TableFile>)
      requires n < |edit.newFiles|
      requires KnownFiles(files, ToSet(add0), NewAt(edit, edit.newFiles[n].0))
      requires ToSet(add) == ToSet(add0) + NewAt(Upto(edit, n), edit.newFiles[n].0)
      ensures KnownFiles(files, ToSet(add), {edit.newFiles[n].1})
    {
      var l := edit.newFiles[n].0;
      NewAtStep(edit, n);
      assert edit.newFiles[n].1 in NewAt(edit, l);
      assert ToSet(files) + ToSet(add) + {edit.newFiles[n].1} <= ToSet(files) + ToSet(add0) + NewAt(edit, l);
    }

    static lemma AddedStep(edit: VersionEdit, n: nat, l: nat, del0: set<nat>, add0: seq<TableFile>,
                           del: set<nat>, add: seq<TableFile>, del': set<nat>, add': seq<TableFile>)
      requires n < |edit.newFiles| && Added(edit, n, l, del0, add0, del, add)
      requires l == edit.newFiles[n].0 ==>
                 del' == del - {edit.newFiles[n].1.number} && ToSet(add') == ToSet(add) + {edit.newFiles[n].1}
      requires l != edit.newFiles[n].0 ==> del' == del && add' == add
      ensures Added(edit, n + 1, l, del0, add0, del', add')
    {
      NewAtStep(edit, n);
    }

    static ghost predicate Applied(edit: VersionEdit, l: nat, del: set<nat>, add: seq<TableFile>, del': set<nat>, add': seq<TableFile>) {
      && del' == (del + DeletedAt(edit, l)) - Numbers(NewAt(edit, l))
      && ToSet(add') == ToSet(add) + NewAt(edit, l)
    }

    static ghost predicate Added(edit: VersionEdit, n: nat, l: nat, del: set<nat>, add: seq<TableFile>, del': set<nat>, add': seq<TableFile>)
      requires n <= |edit.newFiles|
    {
      && del' == del - Numbers(NewAt(Upto(edit, n), l))
      && ToSet(add') == ToSet(add) + NewAt(Upto(edit, n), l)
    }

    static ghost function Upto(edit: VersionEdit, n: nat): VersionEdit
      requires n <= |edit.newFiles|
    {
      edit.(newFiles := edit.newFiles[..n])
    }

    static lemma NothingTakenIn(edit: VersionEdit)
      ensures forall l :: NewAt(Upto(edit, 0), l) == {} && Numbers(NewAt(Upto(edit, 0), l)) == {}
    {
    }

    static lemma NewAtStep(edit: VersionEdit, n: nat)
      requires n < |edit.newFiles|
      ensures forall l :: NewAt(Upto(edit, n + 1), l) ==
                NewAt(Upto(edit, n), l) + (if l == edit.newFiles[n].0 then {edit.newFiles[n].1} else {})
      ensures forall l :: NewAt(Upto(edit, n), l) <= NewAt(edit, l)
    {
      assert edit.newFiles[..n + 1] == edit.newFiles[..n] + [edit.newFiles[n]];
    }

    static predicate InFront(f: TableFile, limit: Option<TableFile>) {
      limit.None? || !BySmallest(limit.value, f)
    }

    static function MaybeAddFile(out: seq<TableFile>, f: TableFile, deleted: set<nat>): seq<TableFile> {
      if f.number in deleted then out else out + [f]
    }

    /** Appends the base files from `from` on that do not come after `limit`, without the deleted ones. */
    static method CopyBase(files: seq<TableFile>, from: nat, limit: Option<TableFile>, deleted: set<nat>, out: seq<TableFile>)
      returns (r: seq<TableFile>, to: nat)
      requires from <= |files|
      ensures from <= to <= |files|
      ensures forall i :: from <= i < to ==> InFront(files[i], limit)
      ensures to < |files| ==> !InFront(files[to], limit)
      ensures r == out + Without(files[from..to], deleted)
    {
      hide Without, MaybeAddFile, InFront;
      WithoutNothing(files, from, deleted, out);
      r, to := out, from;
      while to < |files| && InFront(files[to], limit)
        invariant from <= to <= |files|
        invariant forall i :: from <= i < to ==> InFront(files[i], limit)
        invariant r == out + Without(files[from..to], deleted)
      {
        r := MaybeAddFile(r, files[to], deleted);
        to := to + 1;
        WithoutLonger(files, from, to, deleted, out);
      }
    }

    static lemma WithoutNothing(files: seq<TableFile>, from: nat, deleted: set<nat>, out: seq<TableFile>)
      requires from <= |files|
      ensures out + Without(files[from..from], deleted) == out
    {
    }

    static lemma WithoutLonger(files: seq<TableFile>, from: nat, to: nat, deleted: set<nat>, out: seq<TableFile>)
      requires from < to <= |files|
      ensures MaybeAddFile(out + Without(files[from..to - 1], deleted), files[to - 1], deleted)
              == out + Without(files[from..to], deleted)
    {
      assert files[from..to] == files[from..to - 1] + [files[to - 1]];
      WithoutSnoc(files[from..to - 1], files[to - 1], deleted);
    }

    /** The level of the new version: base files and added files merged, deleted ones left out. */
    static method Save(files: seq<TableFile>, more: seq<TableFile>, deleted: set<nat>) returns (r: seq<TableFile>)
      requires Ordered(files) && Ordered(more)
      ensures r == SaveLevel(files, more, deleted)
    {
      r := [];
      var b := 0;
      for a := 0 to |more|
        invariant 0 <= b <= |files|
        invariant r + SaveLevel(files[b..], more[a..], deleted) == SaveLevel(files, more, deleted)
      {
        var b0, r0 := b, r;
        r, b := CopyBase(files, b, Some(more[a]), deleted, r);
        SaveRound(files, b0, b, more, a, deleted, r0, r);
        r := MaybeAddFile(r, more[a], deleted);
      }
      assert more[|more|..] == [] && files[b..|files|] == files[b..];
      r, b := CopyBase(files, b, None, deleted, r);
    }

    static lemma SaveRound(files: seq<TableFile>, from: nat, to: nat, more: seq<TableFile>, a: nat, deleted: set<nat>,
                           r0: seq<TableFile>, r: seq<TableFile>)
      requires Ordered(files) && Ordered(more) && from <= to <= |files| && a < |more|
      requires forall i :: from <= i < to ==> InFront(files[i], Some(more[a]))
      requires to < |files| ==> !InFront(files[to], Some(more[a]))
      requires r == r0 + Without(files[from..to], deleted)
      ensures MaybeAddFile(r, more[a], deleted) + SaveLevel(files[to..], more[a + 1..], deleted)
              == r0 + SaveLevel(files[from..], more[a..], deleted)
    {
      assert forall i :: from <= i < to ==> InFront(files[i], Some(more[a]));
      SaveStep(files, from, to, more, a, deleted);
    }

    method SaveTo() returns (v: Version)
      requires Valid()
      ensures forall l :: 0 <= l < NUM_LEVELS ==> v[l] == SaveLevel(base[l], added[l], deleted[l])
    {
      var levels: seq<seq<TableFile>> := [];
      for l := 0 to NUM_LEVELS
        invariant |levels| == l
        invariant forall m :: 0 <= m < l ==> levels[m] == SaveLevel(base[m], added[m], deleted[m])
      {
        var files := Save(base[l], added[l], deleted[l]);
        levels := levels + [files];
      }
      v := levels;
    }
  }

  lemma {:induction false} MergePrefix(prefix: seq<TableFile>, rest: seq<TableFile>, more: seq<TableFile>)
    requires forall f, g :: f in prefix && g in more ==> !BySmallest(g, f)
    ensures Merge(prefix + rest, more) == prefix + Merge(rest, more)
  {
    if prefix == [] {
      assert prefix + rest == rest;
    } else {
      assert prefix == [prefix[0]] + prefix[1..];
      assert prefix + rest == [prefix[0]] + (prefix[1..] + rest);
      MergeTakesBase(prefix[0], prefix[1..] + rest, more);
      hide BySmallest, Merge;
      MergePrefix(prefix[1..], rest, more);
      assert [prefix[0]] + (prefix[1..] + Merge(rest, more)) == prefix + Merge(rest, more);
    }
  }

  lemma {:induction false} WithoutConcat(a: seq<TableFile>, b: seq<TableFile>, deleted: set<nat>)
    ensures Without(a + b, deleted) == Without(a, deleted) + Without(b, deleted)
  {
    if a == [] {
      assert a + b == b;
    } else {
      assert a == [a[0]] + a[1..];
      assert a + b == [a[0]] + (a[1..] + b);
      WithoutCons(a[0], a[1..], deleted);
      WithoutCons(a[0], a[1..] + b, deleted);
      WithoutConcat(a[1..], b, deleted);
    }
  }

  /** One round of saving: base files up to the next added file, then that file. */
  lemma SaveStep(files: seq<TableFile>, from: nat, to: nat, more: seq<TableFile>, a: nat, deleted: set<nat>)
    requires Ordered(files) && Ordered(more) && from <= to <= |files| && a < |more|
    requires forall i :: from <= i < to ==> !BySmallest(more[a], files[i])
    requires to < |files| ==> BySmallest(more[a], files[to])
    ensures SaveLevel(files[from..], more[a..], deleted)
            == Without(files[from..to], deleted) + (if more[a].number in deleted then [] else [more[a]])
               + SaveLevel(files[to..], more[a + 1..], deleted)
  {
    assert files[from..] == files[from..to] + files[to..];
    assert more[a..] == [more[a]] + more[a + 1..];
    SubOrdered(files, to);
    SubOrdered(more, a);
    assert forall g :: g in files[from..to] ==> !BySmallest(more[a], g);
    AllBehind(more[a], files[to..]);
    SaveBlock(files[from..to], files[to..], more[a], more[a + 1..], deleted);
  }

  lemma SubOrdered(files: seq<TableFile>, from: nat)
    requires Ordered(files) && from <= |files|
    ensures Ordered(files[from..])
  {
  }

  lemma SaveBlock(prefix: seq<TableFile>, rest: seq<TableFile>, f: TableFile, more: seq<TableFile>, deleted: set<nat>)
    requires Ordered([f] + more)
    requires forall g :: g in prefix ==> !BySmallest(f, g)
    requires forall g :: g in rest ==> BySmallest(f, g)
    ensures SaveLevel(prefix + rest, [f] + more, deleted)
            == Without(prefix, deleted) + (if f.number in deleted then [] else [f]) + SaveLevel(rest, more, deleted)
  {
    var m := Merge(rest, more);
    assert Merge(prefix + rest, [f] + more) == prefix + ([f] + m) by {
      PrefixStaysInFront(prefix, f, more);
      MergePrefix(prefix, rest, [f] + more);
      MergeTakesAdded(f, rest, more);
    }
    WithoutConcat(prefix, [f] + m, deleted);
    WithoutCons(f, m, deleted);
  }

  lemma PrefixStaysInFront(prefix: seq<TableFile>, f: TableFile, more: seq<TableFile>)
    requires Ordered([f] + more)
    requires forall g :: g in prefix ==> !BySmallest(f, g)
    ensures forall g, h :: g in prefix && h in [f] + more ==> !BySmallest(h, g)
  {
    forall g | g in prefix ensures forall h :: h in [f] + more ==> !BySmallest(h, g) {
      NoneBefore(g, [f] + more);
    }
  }

  lemma {:induction false} WithoutSnoc(files: seq<TableFile>, f: TableFile, deleted: set<nat>)
    ensures Without(files + [f], deleted) == Without(files, deleted) + (if f.number in deleted then [] else [f])
  {
    if files == [] {
      assert files + [f] == [f];
    } else {
      assert (files + [f])[1..] == files[1..] + [f];
      WithoutSnoc(files[1..], f, deleted);
    }
  }

  // ----- One builder for many edits -----

  /** What an edit does to one level. */
  datatype LevelEdit = LevelEdit(del: set<nat>, add: set<TableFile>)

  /** Numbers deleted and not added back, after a list of edits. */
  ghost function DeletedBy(edits: seq<LevelEdit>): set<nat> {
    if edits == [] then {} else
      var e := edits[|edits| - 1];
      (DeletedBy(edits[..|edits| - 1]) + e.del) - Numbers(e.add)
  }

  ghost function AddedBy(edits: seq<LevelEdit>): set<TableFile> {
    if edits == [] then {} else AddedBy(edits[..|edits| - 1]) + edits[|edits| - 1].add
  }

  /** The level after every edit has been installed as a version of its own, each of them saved by
      a fresh builder.  `adds` lists the files of each edit in order. */
  ghost predicate Installed(base: seq<TableFile>, edits: seq<LevelEdit>, adds: seq<seq<TableFile>>, v: seq<TableFile>)
    decreases |edits|
  {
    |adds| == |edits| &&
    if edits == [] then v == base else
      var n := |edits| - 1;
      && Ordered(adds[n]) && ToSet(adds[n]) == edits[n].add
      && Ordered(v)
      && exists u :: Installed(base, edits[..n], adds[..n], u)
           && v == SaveLevel(u, adds[n], edits[n].del - Numbers(edits[n].add))
  }

  lemma {:induction false} InstalledFiles(base: seq<TableFile>, edits: seq<LevelEdit>, adds: seq<seq<TableFile>>, v: seq<TableFile>)
    requires Ordered(base) && Identified(ToSet(base) + AddedBy(edits))
    requires Installed(base, edits, adds, v)
    ensures Ordered(v)
    ensures forall f :: f in v <==> (f in base || f in AddedBy(edits)) && f.number !in DeletedBy(edits)
    decreases |edits|
  {
    if edits != [] {
      var n := |edits| - 1;
      var u :| Installed(base, edits[..n], adds[..n], u)
        && v == SaveLevel(u, adds[n], edits[n].del - Numbers(edits[n].add));
      assert ToSet(base) + AddedBy(edits[..n]) <= ToSet(base) + AddedBy(edits);
      InstalledFiles(base, edits[..n], adds[..n], u);
      SaveLevelMembers(u, adds[n], edits[n].del - Numbers(edits[n].add));
      forall f ensures f in v <==> (f in base || f in AddedBy(edits)) && f.number !in DeletedBy(edits) {
        InstalledFile(base, edits, u, adds[n], v, f);
      }
    }
  }

  lemma InstalledFile(base: seq<TableFile>, edits: seq<LevelEdit>, u: seq<TableFile>, add: seq<TableFile>, v: seq<TableFile>, f: TableFile)
    requires edits != [] && Identified(ToSet(base) + AddedBy(edits))
    requires var n := |edits| - 1;
             && ToSet(add) == edits[n].add
             && (f in v <==> (f in u || f in add) && f.number !in edits[n].del - Numbers(edits[n].add))
             && (f in u <==> (f in base || f in AddedBy(edits[..n])) && f.number !in DeletedBy(edits[..n]))
    ensures f in v <==> (f in base || f in AddedBy(edits)) && f.number !in DeletedBy(edits)
  {
    var e := edits[|edits| - 1];
    assert f in add <==> f in e.add;
    if f.number in Numbers(e.add) && (f in base || f in AddedBy(edits)) {
      var g :| g in e.add && g.number == f.number;
      assert f in ToSet(base) + AddedBy(edits) && g in ToSet(base) + AddedBy(edits);
    }
  }

  /** Folding a list of edits through one builder gives the level that installing them one by one
      gives, if and only if no live base file has been added over again. */
  lemma BatchEqualsOneByOne(base: seq<TableFile>, edits: seq<LevelEdit>, adds: seq<seq<TableFile>>,
                            v: seq<TableFile>, added: seq<TableFile>)
    requires Ordered(base) && Ordered(added) && ToSet(added) == AddedBy(edits)
    requires Identified(ToSet(base) + AddedBy(edits))
    requires Installed(base, edits, adds, v)
    ensures SaveLevel(base, added, DeletedBy(edits)) == v <==> !AddedTwice(base, AddedBy(edits), DeletedBy(edits))
  {
    InstalledFiles(base, edits, adds, v);
    SaveLevelOrdered(base, added, DeletedBy(edits));
    SaveLevelMembers(base, added, DeletedBy(edits));
    assert forall f :: f in added <==> f in ToSet(added);
    var r := SaveLevel(base, added, DeletedBy(edits));
    if Ordered(r) {
      assert ToSet(r) == ToSet(v);
      OrderedIsUnique(r, v);
    }
  }

  /** From an empty version, as a manifest is replayed, the two always agree: whatever was deleted and
      added back, no base file can be listed a second time. */
  lemma BatchFromEmptyEqualsOneByOne(edits: seq<LevelEdit>, adds: seq<seq<TableFile>>, v: seq<TableFile>, added: seq<TableFile>)
    requires Ordered(added) && ToSet(added) == AddedBy(edits) && Identified(AddedBy(edits))
    requires Installed([], edits, adds, v)
    ensures SaveLevel([], added, DeletedBy(edits)) == v
  {
    var nil: seq<TableFile> := [];
    assert ToSet(nil) + AddedBy(edits) == AddedBy(edits);
    BatchEqualsOneByOne(nil, edits, adds, v, added);
  }

  /** A number that is never added back to the level it was deleted from rules that out, given that
      no edit adds a file the level already holds. */
  lemma {:induction false} NeverAddedBack(base: seq<TableFile>, edits: seq<LevelEdit>)
    requires forall i :: 0 <= i < |edits| ==> Numbers(edits[i].add) !! Numbers(ToSet(base))
    ensures !AddedTwice(base, AddedBy(edits), DeletedBy(edits))
  {
    if edits != [] {
      var n := |edits| - 1;
      NeverAddedBack(base, edits[..n]);
      AddedNumbers(base, edits);
    }
  }

  lemma {:induction false} AddedNumbers(base: seq<TableFile>, edits: seq<LevelEdit>)
    requires forall i :: 0 <= i < |edits| ==> Numbers(edits[i].add) !! Numbers(ToSet(base))
    ensures forall f :: f in AddedBy(edits) ==> f !in base
  {
    if edits != [] {
      AddedNumbers(base, edits[..|edits| - 1]);
      assert forall f :: f in edits[|edits| - 1].add ==> f.number in Numbers(edits[|edits| - 1].add);
      assert forall f :: f in base ==> f in ToSet(base);
      assert forall f :: f in base ==> f.number in Numbers(ToSet(base));
    }
  }

  /** A file deleted by one edit and added back by the next. */
  ghost function DeleteThenAddBack(f: TableFile): seq<LevelEdit> {
    [LevelEdit({f.number}, {})] + [LevelEdit({}, {f})]
  }

  lemma AddedBackOneByOne(f: TableFile)
    ensures Installed([f], DeleteThenAddBack(f), [[], [f]], [f])
  {
    var nil: seq<TableFile> := [];
    var edits := DeleteThenAddBack(f);
    var adds: seq<seq<TableFile>> := [nil, [f]];
    assert edits[..1][..0] == [];
    assert adds[..1][..0] == [];
    assert Installed([f], edits[..1][..0], adds[..1][..0], [f]);
    WithoutCons(f, nil, {f.number});
    assert [f] + nil == [f] && ToSet(nil) == {} && ToSet([f]) == {f} && Numbers({}) == {};
    assert {f.number} - Numbers({}) == {f.number};
    var none: set<nat> := {};
    assert none - Numbers({f}) == none;
    assert nil == SaveLevel([f], nil, {f.number});
    assert Installed([f], edits[..1], adds[..1], nil);
    MergeTakesAdded(f, nil, nil);
    WithoutCons(f, nil, {});
    assert [f] == SaveLevel(nil, [f], {});
  }

  /** Where the condition fails the two differ: the file is listed twice. */
  lemma AddedBackIsListedTwice(f: TableFile)
    ensures SaveLevel([f], [f], DeletedBy(DeleteThenAddBack(f))) == [f, f]
  {
    var nil: seq<TableFile> := [];
    var edits := DeleteThenAddBack(f);
    assert edits[..1][..0] == [];
    assert DeletedBy(edits[..1]) == {f.number} - Numbers({});
    assert f.number in Numbers({f});
    assert DeletedBy(edits) == DeletedBy(edits[..1]) - Numbers({f});
    assert DeletedBy(edits) == {};
    assert [f] + nil == [f];
    MergeTakesBase(f, nil, [f]);
    MergeTakesAdded(f, nil, nil);
    WithoutCons(f, [f], {});
    WithoutCons(f, nil, {});
    assert Merge([f], [f]) == [f] + [f];
  }
}
