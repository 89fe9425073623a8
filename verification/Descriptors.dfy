/**
 Open files on values: a volume and the descriptors that point into its files, the operations on both,
 and the byte sequences with positions that they refine.  What keeps a writer from getting past the end
 of its file is a condition on truncating opens alone.
 */
module Descriptors {
  import opened Wrappers
  import opened Runs
  import opened ExtentTree
  import opened TreeUpdate
  import opened TreePath
  import opened TreeInsert
  import opened Extents
  import opened BlockIo
  import opened FileData
  import opened RegularFile
  import opened VolumeState

  /** struct file: which file, and where in it the next read or write begins. */
  datatype Desc = Desc(file: nat, pos: nat)

  datatype Sys = Sys(vol: Vol, fds: seq<Option<Desc>>)

  /** Elsewhere is what directories and the rest of the file system do to the volume. */
  datatype Op =
    | Create
    | Open(fd: nat, file: nat, trunc: bool)
    | Close(fd: nat)
    | Read(fd: nat, count: nat, out: seq<bv8>)
    | Write(fd: nat, buf: seq<bv8>, ok: bool)
    | Elsewhere

  predicate InUse(s: Sys, fd: nat) {
    fd < |s.fds| && s.fds[fd].Some? && s.fds[fd].value.file < |s.vol.files|
  }

  /** Descriptor fd, if in use, points into its file or to its end. */
  predicate PositionedAt(s: Sys, fd: nat)
    requires fd < |s.fds|
  {
    s.fds[fd].Some? ==> InUse(s, fd) && s.fds[fd].value.pos <= s.vol.files[s.fds[fd].value.file].size
  }

  ghost predicate Positioned(s: Sys) {
    forall fd :: 0 <= fd < |s.fds| ==> PositionedAt(s, fd)
  }

  /** What a read of up to count bytes at pos returns. */
  function Slice(s: seq<bv8>, pos: nat, count: nat): seq<bv8> {
    if pos < |s| then s[pos..Smaller(pos + count, |s|)] else []
  }

  // ---------- steps ----------

  /** A write through descriptor fd, which succeeds or stops half way. */
  ghost predicate Wrote(s: Sys, t: Sys, fd: nat, buf: seq<bv8>, ok: bool, gone: set<nat>)
    requires InUse(s, fd) && s.fds[fd].value.pos <= s.vol.files[s.fds[fd].value.file].size
  {
    var Desc(i, pos) := s.fds[fd].value;
    && Changed(s.vol, t.vol, i, gone)
    && var before, after := BytesOf(s.vol.disk, s.vol.files[i]), BytesOf(t.vol.disk, t.vol.files[i]);
    if ok then after == Overlay(before, pos, buf) && t.fds == s.fds[fd := Some(Desc(i, pos + |buf|))]
    else PartWritten(before, pos, buf, after) && t.fds == s.fds
  }

  /** The operations of fs/open.c.  Of a write that begins behind the end of its file, or ends behind 4 GiB,
      nothing is said here. */
  ghost predicate Next(s: Sys, op: Op, t: Sys) {
    match op
    case Create => Created(s.vol, t.vol) && t.fds == s.fds
    case Open(fd, i, trunc) =>
      && fd < |s.fds| && s.fds[fd].None? && i < |s.vol.files| && t.fds == s.fds[fd := Some(Desc(i, 0))]
      && if trunc then exists leak: multiset<nat> :: Emptied(s.vol, t.vol, i, leak) else t.vol == s.vol
    case Close(fd) => fd < |s.fds| && s.fds[fd].Some? && t == s.(fds := s.fds[fd := None])
    case Read(fd, count, out) =>
      && InUse(s, fd) && t.vol == s.vol
      && var Desc(i, pos) := s.fds[fd].value;
      && out == Slice(BytesOf(s.vol.disk, s.vol.files[i]), pos, count)
      && t.fds == s.fds[fd := Some(Desc(i, pos + |out|))]
    case Write(fd, buf, ok) =>
      && InUse(s, fd)
      && (PositionedAt(s, fd) && InReach(s, op) ==> exists gone: set<nat> :: Wrote(s, t, fd, buf, ok, gone))
    case Elsewhere =>
      && t.fds == s.fds
      && (|| WrittenElsewhere(s.vol, t.vol)
          || (exists b: set<nat> :: Grabbed(s.vol, t.vol, b)) || exists b: nat :: Released(s.vol, t.vol, b))
  }

  /** A write ends within the 4 GiB that 32 bits of the position can tell apart. */
  predicate InReach(s: Sys, op: Op) {
    op.Write? && InUse(s, op.fd) ==> s.fds[op.fd].value.pos + |op.buf| <= POS_LIMIT
  }

  predicate AtStart(s: Sys, fd: nat, i: nat)
    requires fd < |s.fds|
  {
    s.fds[fd].Some? && s.fds[fd].value.file == i ==> s.fds[fd].value.pos == 0
  }

  /** A truncating open finds every other descriptor on its file at position 0. */
  ghost predicate Alone(s: Sys, op: Op) {
    op.Open? && op.trunc ==> forall fd :: 0 <= fd < |s.fds| ==> AtStart(s, fd, op.file)
  }

  // ---------- byte sequences with positions ----------

  datatype Ref = Ref(files: seq<seq<bv8>>, fds: seq<Option<Desc>>)

  function View(s: Sys): Ref {
    Ref(seq(|s.vol.files|, i requires 0 <= i < |s.vol.files| => BytesOf(s.vol.disk, s.vol.files[i])), s.fds)
  }

  predicate RefInUse(a: Ref, fd: nat) {
    fd < |a.fds| && a.fds[fd].Some? && a.fds[fd].value.file < |a.files|
  }

  /** What the operations mean for files that are nothing but sequences of bytes. */
  ghost predicate RefNext(a: Ref, op: Op, b: Ref) {
    match op
    case Create => b == Ref(a.files + [[]], a.fds)
    case Open(fd, i, trunc) =>
      && fd < |a.fds| && a.fds[fd].None? && i < |a.files|
      && b == Ref(if trunc then a.files[i := []] else a.files, a.fds[fd := Some(Desc(i, 0))])
    case Close(fd) => fd < |a.fds| && a.fds[fd].Some? && b == Ref(a.files, a.fds[fd := None])
    case Read(fd, count, out) =>
      && RefInUse(a, fd)
      && var Desc(i, pos) := a.fds[fd].value;
      out == Slice(a.files[i], pos, count) && b == Ref(a.files, a.fds[fd := Some(Desc(i, pos + |out|))])
    case Write(fd, buf, ok) =>
      && RefInUse(a, fd)
      && var Desc(i, pos) := a.fds[fd].value;
      && pos <= |a.files[i]|
      && if ok then b == Ref(a.files[i := Overlay(a.files[i], pos, buf)], a.fds[fd := Some(Desc(i, pos + |buf|))])
         else
           && i < |b.files| && PartWritten(a.files[i], pos, buf, b.files[i])
           && b == Ref(a.files[i := b.files[i]], a.fds)
    case Elsewhere => b == a
  }

  // ---------- one step ----------

  lemma BytesSize(disk: Disk, f: FileState)
    ensures |BytesOf(disk, f)| == f.size
  {
  }

  lemma WroteSize(s: Sys, t: Sys, fd: nat, buf: seq<bv8>, ok: bool, gone: set<nat>)
    requires InUse(s, fd) && PositionedAt(s, fd) && Wrote(s, t, fd, buf, ok, gone)
    ensures var Desc(i, pos) := s.fds[fd].value;
            && |t.vol.files| == |s.vol.files| && t.vol.files == s.vol.files[i := t.vol.files[i]]
            && t.vol.files[i].size == if ok then Larger(s.vol.files[i].size, pos + |buf|) else s.vol.files[i].size
  {
    hide Moved, FileWf, BytesOf;
    var i := s.fds[fd].value.file;
    BytesSize(s.vol.disk, s.vol.files[i]);
    BytesSize(t.vol.disk, t.vol.files[i]);
  }

  /** Every operation keeps all descriptors within their files, a truncating open exactly if all other
      descriptors on its file are at 0. */
  lemma StepPositions(s: Sys, op: Op, t: Sys)
    requires Positioned(s) && Next(s, op, t) && InReach(s, op)
    ensures Positioned(t) <==> Alone(s, op)
  {
    hide Changed, BytesOf, Wrote, Moved, OwnedBy, OnlyTouched;
    match op
    case Open(fd, i, trunc) =>
      if Alone(s, op) {
        forall g | 0 <= g < |t.fds|
          ensures PositionedAt(t, g)
        {
          assert PositionedAt(s, g) && (trunc ==> AtStart(s, g, i));
        }
      } else {
        var g :| 0 <= g < |s.fds| && !AtStart(s, g, i);
        assert !PositionedAt(t, g);
      }
    case Write(fd, buf, ok) =>
      assert PositionedAt(s, fd);
      var gone: set<nat> :| Wrote(s, t, fd, buf, ok, gone);
      WroteSize(s, t, fd, buf, ok, gone);
      WrotePositions(s, t, fd, buf, ok, gone);
    case Read(fd, count, out) =>
      BytesSize(s.vol.disk, s.vol.files[s.fds[fd].value.file]);
      forall g | 0 <= g < |t.fds|
        ensures PositionedAt(t, g)
      {
        assert PositionedAt(s, g);
      }
    case _ =>
      forall g | 0 <= g < |t.fds|
        ensures PositionedAt(t, g)
      {
        assert PositionedAt(s, g);
      }
  }

  lemma WrotePositions(s: Sys, t: Sys, fd: nat, buf: seq<bv8>, ok: bool, gone: set<nat>)
    requires Positioned(s) && InUse(s, fd) && PositionedAt(s, fd) && Wrote(s, t, fd, buf, ok, gone)
    ensures Positioned(t)
  {
    WroteSize(s, t, fd, buf, ok, gone);
    hide Changed, BytesOf;
    forall g | 0 <= g < |t.fds|
      ensures PositionedAt(t, g)
    {
      assert PositionedAt(s, g);
    }
  }

  /** As long as truncating opens find their files unused, the volume stays safe and each operation does
      to the files what it does to sequences of bytes. */
  lemma StepRefines(s: Sys, op: Op, t: Sys)
    requires Safe(s.vol) && Positioned(s) && Next(s, op, t) && InReach(s, op)
    ensures Safe(t.vol) && RefNext(View(s), op, View(t))
  {
    hide Safe, Moved, OwnedBy, OnlyTouched, FileWf, BytesOf, Grabbed, Released, WrittenElsewhere;
    match op
    case Create =>
      CreatedSafe(s.vol, t.vol);
      NothingOwned(s.vol.disk);
      assert View(t).files == View(s).files + [[]];
    case Open(fd, i, trunc) =>
      if trunc {
        var leak: multiset<nat> :| Emptied(s.vol, t.vol, i, leak);
        EmptiedSafe(s.vol, t.vol, i, leak);
        assert View(t).files == View(s).files[i := []];
      }
    case Close(fd) =>
    case Read(fd, count, out) =>
    case Write(fd, buf, ok) =>
      assert PositionedAt(s, fd);
      var gone: set<nat> :| Wrote(s, t, fd, buf, ok, gone);
      WroteRefines(s, t, fd, buf, ok, gone);
    case Elsewhere =>
      ElsewhereSafe(s.vol, t.vol);
      assert View(t).files == View(s).files;
  }

  lemma WroteRefines(s: Sys, t: Sys, fd: nat, buf: seq<bv8>, ok: bool, gone: set<nat>)
    requires Safe(s.vol) && InUse(s, fd) && PositionedAt(s, fd) && Wrote(s, t, fd, buf, ok, gone)
    ensures Safe(t.vol) && RefNext(View(s), Write(fd, buf, ok), View(t))
  {
    hide Safe, Moved, OwnedBy, FileWf, BytesOf;
    var Desc(i, pos) := s.fds[fd].value;
    ChangedSafe(s.vol, t.vol, i, gone);
    BytesSize(s.vol.disk, s.vol.files[i]);
    assert View(t).files == View(s).files[i := BytesOf(t.vol.disk, t.vol.files[i])];
  }

  // ---------- every run ----------

  ghost predicate IsSysRun(run: seq<Sys>, ops: seq<Op>) {
    && |run| == |ops| + 1
    && forall k :: 0 <= k < |ops| ==> Next(run[k], ops[k], run[k + 1]) && InReach(run[k], ops[k])
  }

  /** Over every run the descriptors stay within their files exactly if no truncating open finds another
      descriptor of its file behind position 0. */
  lemma RunPositions(run: seq<Sys>, ops: seq<Op>)
    requires IsSysRun(run, ops) && Positioned(run[0])
    ensures (forall k :: 0 <= k < |run| ==> Positioned(run[k])) <==>
            (forall k :: 0 <= k < |ops| ==> Alone(run[k], ops[k]))
  {
    hide Positioned, Alone, Next, InReach;
    if forall k :: 0 <= k < |run| ==> Positioned(run[k]) {
      forall k | 0 <= k < |ops|
        ensures Alone(run[k], ops[k])
      {
        StepPositions(run[k], ops[k], run[k + 1]);
      }
    }
    if forall k :: 0 <= k < |ops| ==> Alone(run[k], ops[k]) {
      forall k: nat | k < |run|
        ensures Positioned(run[k])
      {
        PositionedSoFar(run, ops, k);
      }
    }
  }

  lemma {:induction false} PositionedSoFar(run: seq<Sys>, ops: seq<Op>, n: nat)
    requires IsSysRun(run, ops) && Positioned(run[0]) && n < |run|
    requires forall k :: 0 <= k < |ops| ==> Alone(run[k], ops[k])
    ensures Positioned(run[n])
  {
    hide Positioned, Alone, Next, InReach;
    if n > 0 {
      PositionedSoFar(run, ops, n - 1);
      StepPositions(run[n - 1], ops[n - 1], run[n]);
    }
  }

  /** And on these runs every operation, writes included, is the operation on sequences of bytes, and the
      volume stays safe: each file well formed with a mapped prefix, each block accounted for once. */
  lemma {:induction false} RunRefines(run: seq<Sys>, ops: seq<Op>, n: nat)
    requires IsSysRun(run, ops) && Safe(run[0].vol) && Positioned(run[0]) && n < |run|
    requires forall k :: 0 <= k < |ops| ==> Alone(run[k], ops[k])
    ensures Safe(run[n].vol) && Positioned(run[n])
    ensures forall k :: 0 <= k < n ==> RefNext(View(run[k]), ops[k], View(run[k + 1]))
  {
    hide Safe, Positioned, Alone, Next, InReach, RefNext;
    if n > 0 {
      RunRefines(run, ops, n - 1);
      PositionedSoFar(run, ops, n);
      StepRefines(run[n - 1], ops[n - 1], run[n]);
    }
  }

  // ---------- the condition cannot be dropped ----------

  /** fd writes two blocks to file i, and then another descriptor truncates the file. */
  ghost predicate CutUnderneath(s: Sys, t: Sys, u: Sys, fd: nat, other: nat, i: nat, buf: seq<bv8>) {
    && Safe(s.vol) && Positioned(s) && InUse(s, fd) && s.fds[fd].value == Desc(i, 0) && fd != other
    && |buf| == 2 * BLOCK_BYTES && Next(s, Write(fd, buf, true), t) && Next(t, Open(other, i, true), u)
  }

  /** The next write through fd then asks for block 2 of an empty tree; whatever run it gets there, what
      results is no file any more. */
  lemma Stranded(s: Sys, t: Sys, u: Sys, fd: nat, other: nat, i: nat, buf: seq<bv8>, d1: Disk, r1: Node,
      free1: set<nat>, ex: Entry)
    requires CutUnderneath(s, t, u, fd, other, i, buf)
    ensures Safe(u.vol) && !Positioned(u)
    ensures fd < |u.fds| && u.fds[fd] == Some(Desc(i, 2 * BLOCK_BYTES)) && i < |u.vol.files|
    ensures u.vol.files[i] == EMPTY_FILE
    ensures Mapped(u.vol.disk, EMPTY_TREE, u.vol.free, d1, r1, free1, ex) && 1 <= ex.len && ex.key == 2 ==>
              forall size: nat, m: nat :: !FileOk(d1, r1, size, m)
  {
    hide Safe, FileOk, Mapped, Emptied, Wrote;
    assert PositionedAt(s, fd);
    var gone: set<nat> :| Wrote(s, t, fd, buf, true, gone);
    StepRefines(s, Write(fd, buf, true), t);
    Moved2(s, t, fd, buf, gone);
    var leak: multiset<nat> :| Emptied(t.vol, u.vol, i, leak);
    EmptiedSafe(t.vol, u.vol, i, leak);
    NowEmpty(t.vol, u.vol, i, leak);
    assert !PositionedAt(u, fd);
    EmptyFile(u.vol.disk);
    EmptyTree(u.vol.disk);
    if Mapped(u.vol.disk, EMPTY_TREE, u.vol.free, d1, r1, free1, ex) && 1 <= ex.len && ex.key == 2 {
      AppendExactly(u.vol.disk, EMPTY_TREE, u.vol.free, d1, r1, free1, ex, 0, 0);
    }
  }

  lemma Moved2(s: Sys, t: Sys, fd: nat, buf: seq<bv8>, gone: set<nat>)
    requires InUse(s, fd) && PositionedAt(s, fd) && Wrote(s, t, fd, buf, true, gone)
    ensures fd < |t.fds| && t.fds[fd] == Some(Desc(s.fds[fd].value.file, s.fds[fd].value.pos + |buf|))
  {
  }

  lemma NowEmpty(v: Vol, w: Vol, i: nat, leak: multiset<nat>)
    requires Emptied(v, w, i, leak)
    ensures i < |w.files| && w.files[i] == EMPTY_FILE
  {
  }
}
