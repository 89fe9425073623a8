/**
 All the files of a volume together: who owns which block, and the steps that change that, on values.
 Safety over every run: each block is free, owned by one file, held by other parts of the file system
 or lost, and that exactly once.
 */
module VolumeState {
  import opened Wrappers
  import opened Runs
  import opened ExtentTree
  import opened TreeUpdate
  import opened TreePath
  import opened Extents
  import opened FileData
  import opened RegularFile

  datatype FileState = FileState(root: Node, size: nat, mapped: nat)

  /** other: blocks that no file owns but that are not free either (metadata, directories, and what
      failed operations have left behind); all: the blocks of the volume. */
  datatype Vol = Vol(disk: Disk, free: set<nat>, files: seq<FileState>, other: multiset<nat>, all: set<nat>)

  const EMPTY_FILE := FileState(EMPTY_TREE, 0, 0)

  function OwnedBy(disk: Disk, f: FileState): multiset<nat> {
    TreeOwned(disk, f.root)
  }

  function Total(disk: Disk, fs: seq<FileState>): multiset<nat> {
    if fs == [] then multiset{} else Total(disk, fs[..|fs| - 1]) + OwnedBy(disk, fs[|fs| - 1])
  }

  function BytesOf(disk: Disk, f: FileState): seq<bv8> {
    Contents(disk, f.root, f.size)
  }

  ghost predicate FileWf(disk: Disk, f: FileState) {
    FileOk(disk, f.root, f.size, f.mapped) && f.size <= POS_LIMIT && Lean(disk, f.root)
  }

  /** Every block is accounted for exactly once. */
  ghost predicate Conserved(v: Vol) {
    multiset(v.free) + Total(v.disk, v.files) + v.other == multiset(v.all)
  }

  ghost predicate Safe(v: Vol) {
    && Conserved(v)
    && forall i :: 0 <= i < |v.files| ==> FileWf(v.disk, v.files[i])
  }

  // ---------- steps ----------

  /** A write or a mapping on file i. */
  ghost predicate Changed(v: Vol, w: Vol, i: nat, gone: set<nat>) {
    && i < |v.files| == |w.files| && w.files == v.files[i := w.files[i]] && w.all == v.all
    && Moved(v.disk, OwnedBy(v.disk, v.files[i]), v.free, w.disk, OwnedBy(w.disk, w.files[i]), w.free, gone)
    && FileWf(w.disk, w.files[i])
    && w.other == v.other + multiset(gone)
  }

  /** File i is emptied; leak is what its tree owned and the freeing did not reach. */
  ghost predicate Emptied(v: Vol, w: Vol, i: nat, leak: multiset<nat>) {
    && i < |v.files| && w.files == v.files[i := EMPTY_FILE] && w.all == v.all && w.disk == v.disk
    && multiset(w.free) + leak == multiset(v.free) + OwnedBy(v.disk, v.files[i])
    && w.other == v.other + leak
  }

  /** Other parts of the file system take free blocks. */
  ghost predicate Grabbed(v: Vol, w: Vol, s: set<nat>) {
    s <= v.free && w == v.(free := v.free - s, other := v.other + multiset(s))
  }

  /** They give a block back. */
  ghost predicate Released(v: Vol, w: Vol, b: nat) {
    b in v.other && w == v.(free := v.free + {b}, other := v.other - multiset{b})
  }

  /** They write to blocks of their own. */
  ghost predicate WrittenElsewhere(v: Vol, w: Vol) {
    OnlyTouched(v.disk, w.disk, v.other) && w == v.(disk := w.disk)
  }

  /** A new file. */
  ghost predicate Created(v: Vol, w: Vol) {
    w == v.(files := v.files + [EMPTY_FILE])
  }

  ghost predicate Step(v: Vol, w: Vol) {
    || (exists i: nat, gone: set<nat> :: Changed(v, w, i, gone))
    || (exists i: nat, leak: multiset<nat> :: Emptied(v, w, i, leak))
    || (exists s: set<nat> :: Grabbed(v, w, s))
    || (exists b: nat :: Released(v, w, b))
    || WrittenElsewhere(v, w)
    || Created(v, w)
  }

  // ---------- sums ----------

  lemma {:induction false} TotalAt(disk: Disk, fs: seq<FileState>, i: nat)
    requires i < |fs|
    ensures OwnedBy(disk, fs[i]) <= Total(disk, fs)
  {
    if i < |fs| - 1 {
      TotalAt(disk, fs[..|fs| - 1], i);
    }
  }

  lemma {:induction false} TotalTwo(disk: Disk, fs: seq<FileState>, i: nat, j: nat)
    requires i < |fs| && j < |fs| && i != j
    ensures OwnedBy(disk, fs[i]) + OwnedBy(disk, fs[j]) <= Total(disk, fs)
  {
    hide OwnedBy;
    var n := |fs| - 1;
    if i == n {
      TotalAt(disk, fs[..n], j);
    } else if j == n {
      TotalAt(disk, fs[..n], i);
    } else {
      TotalTwo(disk, fs[..n], i, j);
    }
  }

  /** Replacing one summand. */
  lemma {:induction false} TotalUpdate(d0: Disk, d1: Disk, fs: seq<FileState>, i: nat, f: FileState)
    requires i < |fs|
    requires forall j :: 0 <= j < |fs| && j != i ==> OwnedBy(d1, fs[j]) == OwnedBy(d0, fs[j])
    ensures Total(d1, fs[i := f]) + OwnedBy(d0, fs[i]) == Total(d0, fs) + OwnedBy(d1, f)
  {
    hide OwnedBy;
    var n := |fs| - 1;
    if i == n {
      assert fs[i := f][..n] == fs[..n];
      TotalSame(d0, d1, fs[..n]);
    } else {
      TotalUpdate(d0, d1, fs[..n], i, f);
      assert fs[i := f][..n] == fs[..n][i := f];
      var z := OwnedBy(d0, fs[n]);
      assert Total(d1, fs[i := f]) == Total(d1, fs[..n][i := f]) + z;
      assert Total(d0, fs) == Total(d0, fs[..n]) + z;
      AddBoth(Total(d1, fs[..n][i := f]), OwnedBy(d0, fs[i]), Total(d0, fs[..n]), OwnedBy(d1, f), z);
    }
  }

  lemma AddBoth(a: multiset<nat>, b: multiset<nat>, c: multiset<nat>, d: multiset<nat>, z: multiset<nat>)
    requires a + b == c + d
    ensures (a + z) + b == (c + z) + d
  {
    assert (a + z) + b == (a + b) + z;
    assert (c + z) + d == (c + d) + z;
  }

  lemma {:induction false} TotalSame(d0: Disk, d1: Disk, fs: seq<FileState>)
    requires forall j :: 0 <= j < |fs| ==> OwnedBy(d1, fs[j]) == OwnedBy(d0, fs[j])
    ensures Total(d1, fs) == Total(d0, fs)
  {
    hide OwnedBy;
    if fs != [] {
      TotalSame(d0, d1, fs[..|fs| - 1]);
    }
  }

  // ---------- what conservation means ----------

  /** A block belongs to at most one file, and to none if it is free or held elsewhere. */
  lemma OwnedApart(v: Vol, i: nat)
    requires Conserved(v) && i < |v.files|
    ensures Apart(multiset(v.free), OwnedBy(v.disk, v.files[i]))
    ensures Apart(v.other, OwnedBy(v.disk, v.files[i]))
    ensures Once(OwnedBy(v.disk, v.files[i])) && (forall b: nat :: b in OwnedBy(v.disk, v.files[i]) ==> b in v.all)
    ensures forall j :: 0 <= j < |v.files| && j != i ==> Apart(OwnedBy(v.disk, v.files[j]), OwnedBy(v.disk, v.files[i]))
  {
    hide OwnedBy, Total;
    var own, all := OwnedBy(v.disk, v.files[i]), multiset(v.all);
    TotalAt(v.disk, v.files, i);
    forall b
      ensures own[b] + multiset(v.free)[b] + v.other[b] <= all[b] <= 1
    {
      assert (multiset(v.free) + Total(v.disk, v.files) + v.other)[b] == all[b];
    }
    forall j | 0 <= j < |v.files| && j != i
      ensures Apart(OwnedBy(v.disk, v.files[j]), own)
    {
      TotalTwo(v.disk, v.files, j, i);
      forall b
        ensures (OwnedBy(v.disk, v.files[j]) + own)[b] <= 1
      {
        assert (multiset(v.free) + Total(v.disk, v.files) + v.other)[b] == all[b];
      }
      OnceParts(OwnedBy(v.disk, v.files[j]), own);
    }
  }

  /** No two logical blocks of any files share a physical block, and no mapped block is free. */
  lemma NoSharing(v: Vol, i: nat, j: nat, x: nat, y: nat)
    requires Safe(v) && i < |v.files| && j < |v.files|
    requires TreeLookup(v.disk, v.files[i].root, x).Some?
    ensures TreeLookup(v.disk, v.files[i].root, x).value !in v.free
    ensures TreeLookup(v.disk, v.files[i].root, x).value in v.all
    ensures TreeLookup(v.disk, v.files[j].root, y) == TreeLookup(v.disk, v.files[i].root, x) ==> i == j && x == y
  {
    hide Conserved, TreeLookup, WfTree, TreeOwned;
    assert FileWf(v.disk, v.files[i]) && FileWf(v.disk, v.files[j]);
    OwnedApart(v, i);
    TreeLookupOwned(v.disk, v.files[i].root, x);
    if TreeLookup(v.disk, v.files[j].root, y) == TreeLookup(v.disk, v.files[i].root, x) {
      TreeLookupOwned(v.disk, v.files[j].root, y);
    }
  }

  // ---------- every step is safe ----------

  /** What a step on file i leaves alone. */
  lemma OthersKept(v: Vol, d1: Disk, i: nat, t: multiset<nat>)
    requires Safe(v) && i < |v.files| && OnlyTouched(v.disk, d1, t)
    requires forall b: nat :: b in t ==> b in OwnedBy(v.disk, v.files[i]) + multiset(v.free)
    ensures forall j :: 0 <= j < |v.files| && j != i ==>
              FileWf(d1, v.files[j]) && BytesOf(d1, v.files[j]) == BytesOf(v.disk, v.files[j]) &&
              OwnedBy(d1, v.files[j]) == OwnedBy(v.disk, v.files[j])
  {
    hide Conserved, FileOk, TreeOwned, Contents, OnlyTouched;
    forall j | 0 <= j < |v.files| && j != i
      ensures FileWf(d1, v.files[j]) && BytesOf(d1, v.files[j]) == BytesOf(v.disk, v.files[j]) &&
              OwnedBy(d1, v.files[j]) == OwnedBy(v.disk, v.files[j])
    {
      OwnedApart(v, j);
      assert FileWf(v.disk, v.files[j]);
      FileFrame(v.disk, d1, v.files[j].root, v.files[j].size, v.files[j].mapped, t);
    }
  }

  lemma ChangedSafe(v: Vol, w: Vol, i: nat, gone: set<nat>)
    requires Safe(v) && Changed(v, w, i, gone)
    ensures Safe(w)
    ensures forall j :: 0 <= j < |v.files| && j != i ==> BytesOf(w.disk, w.files[j]) == BytesOf(v.disk, v.files[j])
  {
    hide FileWf, OwnedBy, BytesOf, OnlyTouched, Total;
    OthersKept(v, w.disk, i, OwnedBy(v.disk, v.files[i]) + multiset(v.free));
    TotalUpdate(v.disk, w.disk, v.files, i, w.files[i]);
    forall b: nat
      ensures (multiset(w.free) + Total(w.disk, w.files) + w.other)[b] == multiset(v.all)[b]
    {
      assert (multiset(v.free) + Total(v.disk, v.files) + v.other)[b] == multiset(v.all)[b];
      assert (OwnedBy(w.disk, w.files[i]) + multiset(gone))[b] == (OwnedBy(v.disk,
          v.files[i]) + multiset(v.free - w.free))[b];
      assert (Total(w.disk, w.files) + OwnedBy(v.disk, v.files[i]))[b] ==
             (Total(v.disk, v.files) + OwnedBy(w.disk, w.files[i]))[b];
    }
  }

  lemma EmptiedSafe(v: Vol, w: Vol, i: nat, leak: multiset<nat>)
    requires Safe(v) && Emptied(v, w, i, leak)
    ensures Safe(w)
    ensures forall j :: 0 <= j < |v.files| && j != i ==> w.files[j] == v.files[j]
    ensures BytesOf(w.disk, w.files[i]) == []
  {
    EmptyFile(v.disk);
    EmptyTree(v.disk);
    NothingOwned(v.disk);
    hide FileWf, OwnedBy, BytesOf, Total;
    TotalUpdate(v.disk, w.disk, v.files, i, EMPTY_FILE);
    forall b: nat
      ensures (multiset(w.free) + Total(w.disk, w.files) + w.other)[b] == multiset(v.all)[b]
    {
      assert (multiset(v.free) + Total(v.disk, v.files) + v.other)[b] == multiset(v.all)[b];
      assert (multiset(w.free) + leak)[b] == (multiset(v.free) + OwnedBy(v.disk, v.files[i]))[b];
      assert (Total(w.disk, w.files) + OwnedBy(v.disk, v.files[i]))[b] ==
             (Total(v.disk, v.files) + OwnedBy(w.disk, EMPTY_FILE))[b];
    }
  }

  lemma NothingOwned(disk: Disk)
    ensures OwnedBy(disk, EMPTY_FILE) == multiset{} && FileWf(disk, EMPTY_FILE) && BytesOf(disk, EMPTY_FILE) == []
  {
    EmptyTree(disk);
    EmptyFile(disk);
  }

  lemma ElsewhereSafe(v: Vol, w: Vol)
    requires Safe(v) && (WrittenElsewhere(v, w) || (exists s: set<nat> :: Grabbed(v, w,
        s)) || exists b: nat :: Released(v, w, b))
    ensures Safe(w) && w.files == v.files
    ensures forall j :: 0 <= j < |v.files| ==> BytesOf(w.disk, w.files[j]) == BytesOf(v.disk, v.files[j])
  {
    hide FileOk, TreeOwned, Contents, OnlyTouched, Total;
    if WrittenElsewhere(v, w) {
      forall j | 0 <= j < |v.files|
        ensures FileWf(w.disk, v.files[j]) && BytesOf(w.disk, v.files[j]) == BytesOf(v.disk, v.files[j]) &&
                OwnedBy(w.disk, v.files[j]) == OwnedBy(v.disk, v.files[j])
      {
        OwnedApart(v, j);
        assert FileWf(v.disk, v.files[j]);
        FileFrame(v.disk, w.disk, v.files[j].root, v.files[j].size, v.files[j].mapped, v.other);
      }
      TotalSame(v.disk, w.disk, v.files);
    } else if s: set<nat> :| Grabbed(v, w, s) {
      assert multiset(v.free) == multiset(v.free - s) + multiset(s);
    } else {
      var b: nat :| Released(v, w, b);
      ReleasedConserved(v, w, b);
    }
  }

  lemma ReleasedConserved(v: Vol, w: Vol, b: nat)
    requires Conserved(v) && Released(v, w, b)
    ensures Conserved(w)
  {
    hide Total;
    var t := Total(v.disk, v.files);
    assert (multiset(v.free) + t + v.other)[b] == multiset(v.all)[b];
    assert b !in v.free;
    forall c: nat
      ensures (multiset(w.free) + t + w.other)[c] == multiset(v.all)[c]
    {
      assert (multiset(v.free) + t + v.other)[c] == multiset(v.all)[c];
    }
  }

  lemma CreatedSafe(v: Vol, w: Vol)
    requires Safe(v) && Created(v, w)
    ensures Safe(w)
    ensures forall j :: 0 <= j < |v.files| ==> w.files[j] == v.files[j]
  {
    NothingOwned(v.disk);
    assert w.files[..|v.files|] == v.files;
  }

  lemma StepSafe(v: Vol, w: Vol)
    requires Safe(v) && Step(v, w)
    ensures Safe(w)
  {
    hide Safe, Changed, Emptied, Grabbed, Released, WrittenElsewhere, Created;
    if i: nat, gone: set<nat> :| Changed(v, w, i, gone) {
      ChangedSafe(v, w, i, gone);
    } else if i: nat, leak: multiset<nat> :| Emptied(v, w, i, leak) {
      EmptiedSafe(v, w, i, leak);
    } else if Created(v, w) {
      CreatedSafe(v, w);
    } else {
      ElsewhereSafe(v, w);
    }
  }

  ghost predicate IsRun(run: seq<Vol>) {
    forall k :: 0 < k < |run| ==> Step(run[k - 1], run[k])
  }

  /** Over every run that begins with a safe volume. */
  lemma {:induction false} RunSafe(run: seq<Vol>, k: nat)
    requires k < |run| && Safe(run[0]) && IsRun(run)
    ensures Safe(run[k])
  {
    hide Safe, Step;
    if k > 0 {
      RunSafe(run, k - 1);
      StepSafe(run[k - 1], run[k]);
    }
  }

  /** A step that is not a write to file j nor its truncation. */
  ghost predicate Spares(v: Vol, w: Vol, j: nat) {
    || (exists i: nat, gone: set<nat> :: Changed(v, w, i, gone) && i != j)
    || (exists i: nat, leak: multiset<nat> :: Emptied(v, w, i, leak) && i != j)
    || (exists s: set<nat> :: Grabbed(v, w, s))
    || (exists b: nat :: Released(v, w, b))
    || WrittenElsewhere(v, w)
    || Created(v, w)
  }

  lemma SparesKeeps(v: Vol, w: Vol, j: nat)
    requires Safe(v) && Spares(v, w, j) && j < |v.files|
    ensures Safe(w) && j < |w.files| && BytesOf(w.disk, w.files[j]) == BytesOf(v.disk, v.files[j])
  {
    hide Safe, BytesOf, Moved, OwnedBy, FileWf, OnlyTouched;
    if i: nat, gone: set<nat> :| Changed(v, w, i, gone) && i != j {
      ChangedSafe(v, w, i, gone);
    } else if i: nat, leak: multiset<nat> :| Emptied(v, w, i, leak) && i != j {
      EmptiedSafe(v, w, i, leak);
      assert w.files[j] == v.files[j];
    } else if Created(v, w) {
      CreatedSafe(v, w);
    } else {
      ElsewhereSafe(v, w);
    }
  }

  /** A file keeps its bytes over every run that leaves it alone, whatever happens to the others. */
  lemma {:induction false} RunSpares(run: seq<Vol>, j: nat, k: nat)
    requires k < |run| && Safe(run[0]) && j < |run[0].files|
    requires forall n :: 0 < n < |run| ==> Spares(run[n - 1], run[n], j)
    ensures Safe(run[k]) && j < |run[k].files|
    ensures BytesOf(run[k].disk, run[k].files[j]) == BytesOf(run[0].disk, run[0].files[j])
  {
    hide Safe, Spares, BytesOf;
    if k > 0 {
      RunSpares(run, j, k - 1);
      SparesKeeps(run[k - 1], run[k], j);
    }
  }
}
