/**
 The table of open files (fs/open.c): opening with truncation and creation, reading, writing and closing
 through descriptors whose positions move with every byte read or written.
 */
module OpenFiles {
  import opened Wrappers
  import opened Runs
  import opened FreeSpace
  import opened Balloc
  import opened ExtentTree
  import opened TreePath
  import opened TreeInsert
  import opened Extents
  import opened BlockIo
  import opened FileData
  import opened RegularFile
  import opened InodeFree
  import opened VolumeState
  import opened Volume
  import opened Descriptors

  const MAX_FD: nat := 256
  const EBADF := 9

  /** The descriptors in use, by number. */
  function Slots(used: seq<bool>, table: seq<Desc>): seq<Option<Desc>> {
    seq(|used|, k requires 0 <= k < |used| => if used[k] && k < |table| then Some(table[k]) else None)
  }

  lemma SlotSet(used: seq<bool>, table: seq<Desc>, fd: nat, used': seq<bool>, table': seq<Desc>)
    requires |used| == |table| && fd < |used|
    requires |used'| == |used| && used' == used[fd := used'[fd]]
    requires |table'| == |table| && table' == table[fd := table'[fd]]
    ensures Slots(used', table') == Slots(used, table)[fd := if used'[fd] then Some(table'[fd]) else None]
  {
  }

  class FileTable {
    const mount: Mount
    /** fd_used and global_fd_table */
    const used: array<bool>
    const table: array<Desc>

    constructor (mount: Mount)
      requires mount.Valid()
      ensures Valid() && this.mount == mount && fresh(used) && fresh(table) && forall k :: 0 <= k < MAX_FD ==> !used[k]
      ensures Positioned(S())
    {
      hide Mount.Valid;
      ghost var below := mount.Shared() + mount.FilesRepr();
      this.mount := mount;
      used := new bool[MAX_FD](_ => false);
      table := new Desc[MAX_FD](_ => Desc(0, 0));
      new;
      assert below == Below();
      assert mount.Valid();
    }

    ghost function S(): Sys
      reads mount`vol, used, table
    {
      Sys(mount.vol, Slots(used[..], table[..]))
    }

    /** The memory of the volume: its files', and what they share. */
    ghost function Below(): set<object>
      reads mount`files
    {
      mount.Shared() + mount.FilesRepr()
    }

    /** Every descriptor is for some file. */
    ghost predicate Attached()
      requires used.Length == table.Length == MAX_FD
      reads mount`files, used, table
    {
      forall k :: 0 <= k < MAX_FD && used[k] ==> table[k].file < |mount.files|
    }

    ghost predicate Valid()
      reads mount, Below(), used, table
    {
      && used.Length == table.Length == MAX_FD
      && used as object !in Below() && table as object !in Below()
      && mount.Valid() && Attached()
    }

    lemma MemoryOf(i: nat)
      requires i < |mount.files|
      ensures var f := mount.files[i];
              {f, f.ext, f.ext.root, f.ext.root.slots} <= Below()
      ensures {mount, mount.dev, mount.pool.used, mount.pool.bufs} + mount.alloc.Repr() <= Below()
      ensures mount.alloc in mount.alloc.Repr()
    {
      var f := mount.files[i];
      assert {f, f.ext, f.ext.root, f.ext.root.slots} == mount.Own(f);
    }

    /** A new file adds its own memory and nothing else. */
    lemma GrownMemory(fs: seq<File>, f: File)
      ensures mount.ReprOf(fs + [f]) == mount.ReprOf(fs) + mount.Own(f)
    {
      var all := fs + [f];
      forall o | o in mount.ReprOf(fs) + mount.Own(f)
        ensures o in mount.ReprOf(all)
      {
        if o in mount.ReprOf(fs) {
          var k :| 0 <= k < |fs| && o in mount.Own(fs[k]);
          assert o in mount.Own(all[k]);
        } else {
          assert o in mount.Own(all[|fs|]);
        }
      }
    }

    lemma SizeIs(i: nat)
      requires mount.Valid() && i < |mount.files|
      ensures i < |mount.vol.files| && |mount.Bytes(i)| == mount.vol.files[i].size && Safe(mount.vol)
      ensures mount.alloc.Valid()
    {
      BytesSize(mount.vol.disk, mount.vol.files[i]);
    }

    lemma StateOf(i: nat)
      requires Valid() && i < |mount.files|
      ensures mount.vol.disk == mount.dev.blocks && mount.vol.free == mount.alloc.Free() && i < |mount.vol.files|
      ensures var f := mount.files[i].ext;
              f.Valid() && f.dev == mount.dev && f.alloc == mount.alloc && f.Tree() == mount.vol.files[i].root
    {
      mount.FileValid(i);
    }

    /** The first unused slot, -1 when there is none. */
    method FindSlot() returns (fd: int)
      requires used.Length == MAX_FD
      ensures fd == -1 ==> forall k :: 0 <= k < MAX_FD ==> used[k]
      ensures fd != -1 ==> 0 <= fd < MAX_FD && !used[fd] && forall k :: 0 <= k < fd ==> used[k]
    {
      for i := 0 to MAX_FD
        invariant forall k :: 0 <= k < i ==> used[k]
      {
        if !used[i] {
          return i;
        }
      }
      fd := -1;
    }

    /** Lines 164-186: the descriptor is set to position 0, and ext4_file_open truncates when asked to. */
    method Attach(fd: nat, i: nat, trunc: bool)
      requires Valid() && fd < MAX_FD && !used[fd] && i < |mount.files|
      modifies used, table, Below()
      ensures Valid() && mount.files == old(mount.files)
      ensures used[..] == old(used[..])[fd := true] && table[..] == old(table[..])[fd := Desc(i, 0)]
      ensures Next(old(S()), Op.Open(fd, i, trunc), S())
    {
      hide Mount.Valid, Mount.FilesRepr, Mount.Shared, Mount.Own, Safe, Changed, Emptied;
      MemoryOf(i);
      ghost var s := S();
      SizeIs(i);
      table[fd] := Desc(i, 0);
      if trunc {
        ghost var leak := mount.Truncate(i);
        assert Emptied(s.vol, mount.vol, i, leak);
      }
      used[fd] := true;
      SlotSet(old(used[..]), old(table[..]), fd, used[..], table[..]);
    }

    /** vfs_open once the path has been looked up: target is the file found, None when there is none; with
        creat a new file is made then.  -1 stands for all the errors, which change nothing. */
    method Open(target: Option<nat>, creat: bool, trunc: bool) returns (fd: int, i: nat, ghost mid: Sys)
      requires Valid() && (target.Some? ==> target.value < |mount.files|)
      modifies used, table, Below()
      ensures Valid()
      ensures fd == -1 <==> (forall k :: 0 <= k < MAX_FD ==> old(used[k])) || (target.None? && !creat)
      ensures fd == -1 ==> S() == old(S())
      ensures fd != -1 ==>
        && 0 <= fd < MAX_FD && !old(used[fd]) && (forall k :: 0 <= k < fd ==> old(used[k]))
        && (if target.Some? then mid == old(S()) && i == target.value
            else Next(old(S()), Op.Create, mid) && i == |old(mount.files)|)
        && Next(mid, Op.Open(fd, i, trunc), S())
    {
      hide Mount.Valid, Safe, Changed, Emptied, Created, Next;
      i, mid := 0, S();
      fd := FindSlot();
      if fd == -1 {
        return;
      }
      if target.Some? {
        i := target.value;
      } else {
        if !creat {
          return -1, i, mid;
        }
        i := Create();
        mid := S();
      }
      Attach(fd, i, trunc);
    }

    /** Lines 127-155: a new file, which nobody has open. */
    method Create() returns (i: nat)
      requires Valid()
      modifies Below()
      ensures Valid() && used[..] == old(used[..]) && table[..] == old(table[..])
      ensures i == |old(mount.files)| && |mount.files| == i + 1
      ensures fresh(Below() - old(Below())) && Next(old(S()), Op.Create, S())
    {
      hide Mount.Valid, Mount.ReprOf, Mount.Own, Safe, Changed, Emptied, Created;
      ghost var fs := mount.files;
      i := mount.Create();
      assert mount.files == fs + [mount.files[i]];
      GrownMemory(fs, mount.files[i]);
    }

    /** vfs_close */
    method Close(fd: int) returns (ok: bool)
      requires Valid()
      modifies used, table
      ensures Valid() && mount.vol == old(mount.vol)
      ensures ok <==> 0 <= fd < MAX_FD && old(used[fd])
      ensures ok ==> table[fd] == Desc(0, 0)
      ensures if ok then Next(old(S()), Op.Close(fd), S()) else S() == old(S())
    {
      hide Mount.Valid, Mount.FilesRepr, Mount.Shared;
      if fd < 0 || fd >= MAX_FD || !used[fd] {
        return false;
      }
      table[fd] := Desc(0, 0);
      used[fd] := false;
      SlotSet(old(used[..]), old(table[..]), fd, used[..], table[..]);
      ok := true;
    }

    /** vfs_read: the bytes from the descriptor's position on, which moves behind them. */
    method Read(fd: int, count: nat) returns (r: int, out: seq<bv8>)
      requires Valid()
      modifies table, Below()
      ensures Valid() && used[..] == old(used[..]) && mount.files == old(mount.files)
      ensures DidRead(old(S()), fd, count, r, out, S())
    {
      hide Mount.Valid, Mount.FilesRepr, Mount.Shared, Mount.Own, Safe, BytesOf, DidRead;
      if fd < 0 || fd >= MAX_FD || !used[fd] {
        NotRead(S(), fd, count);
        return -EBADF, [];
      }
      var i, pos := table[fd].file, table[fd].pos;
      MemoryOf(i);
      SizeIs(i);
      out := mount.Read(i, count, pos);
      if |out| > 0 {
        table[fd] := Desc(i, pos + |out|);
      }
      r := |out|;
      SlotSet(old(used[..]), old(table[..]), fd, used[..], table[..]);
      ReadDone(old(S()), fd, count, out, S());
    }

    /** vfs_write: the buffer goes over the file at the descriptor's position, which moves behind it.  That
        the position lies within the file is not asked of the caller: it follows from how the descriptors
        have been opened. */
    method Write(fd: int, buf: seq<bv8>, goal: nat, hint: nat) returns (r: int)
      requires Valid() && Positioned(S())
      requires 0 <= fd ==> InReach(S(), Op.Write(fd, buf, true))
      modifies table, Below()
      ensures Valid() && Positioned(S()) && used[..] == old(used[..]) && mount.files == old(mount.files)
      ensures DidWrite(old(S()), fd, buf, r, S())
      ensures r == -1 ==> mount.alloc.Valid() && mount.alloc.Avail() == {}
    {
      hide Mount.Valid, Mount.FilesRepr, Mount.Shared, Mount.Own, Safe, BytesOf, Changed, PartWritten, Overlay,
          Positioned, RefNext, View, Step, Next, DidWrite, Allocator.Valid, AvailSet, Wrote;
      if fd < 0 || fd >= MAX_FD || !used[fd] {
        NotWritten(S(), fd, buf);
        return -EBADF;
      }
      ghost var s := S();
      var i, pos := table[fd].file, table[fd].pos;
      MemoryOf(i);
      SizeIs(i);
      IsPositioned(s, fd);
      var ok;
      ghost var gone;
      ok, gone := mount.Write(i, buf, pos, goal, hint);
      SizeIs(i);
      if ok && |buf| > 0 {
        table[fd] := Desc(i, pos + |buf|);
      }
      r := if ok then |buf| else -1;
      SlotSet(old(used[..]), old(table[..]), fd, used[..], table[..]);
      WriteDone(s, S(), fd, buf, ok, gone);
    }
  }

  /** A write of two blocks through fd, and a truncation through other. */
  method CutShort(t: FileTable, i: nat, fd: nat, other: nat, goal: nat, hint: nat)
    returns (ok: bool, ghost s: Sys, ghost u: Sys, ghost buf: seq<bv8>)
    requires t.Valid() && Positioned(t.S()) && i < |t.mount.files|
    requires fd < MAX_FD && other < MAX_FD && fd != other && !t.used[fd] && !t.used[other]
    modifies t.used, t.table, t.Below()
    ensures t.Valid() && t.mount.files == old(t.mount.files)
    ensures ok ==> CutUnderneath(s, u, t.S(), fd, other, i, buf)
    ensures !ok ==> t.mount.alloc.Valid() && t.mount.alloc.Avail() == {}
  {
    hide Mount.Valid, Mount.FilesRepr, Mount.Shared, Mount.Own, Safe, Next, Positioned, RefNext, View;
    ghost var s0 := t.S();
    t.Attach(fd, i, false);
    s, u := t.S(), t.S();
    StepPositions(s0, Op.Open(fd, i, false), s);
    t.SizeIs(i);
    var data := seq(2 * BLOCK_BYTES, _ => 1 as bv8);
    buf := data;
    var r := t.Write(fd, data, goal, hint);
    u := t.S();
    t.StateOf(i);
    if r == -1 {
      return false, s, u, buf;
    }
    t.Attach(other, i, true);
    ok := true;
  }

  /** ext4_get_data_block with create on an empty file. */
  method FirstBlock(f: ExtentFile, l: nat, goal: nat, hint: nat) returns (ok: bool, ghost ex: Entry)
    requires f.Valid() && f.Tree() == EMPTY_TREE && l + INIT_MAX_LEN <= LBLOCKS
    modifies f`inited, f.root, f.root.slots, f.dev, f.alloc.Repr()
    ensures f.Shape() && f.alloc.Valid() && (!ok ==> f.alloc.Avail() == {})
    ensures ok ==>
      && ex.key == l && 1 <= ex.len
      && Mapped(old(f.dev.blocks), EMPTY_TREE, old(f.alloc.Free()), f.dev.blocks, f.Tree(), f.alloc.Free(), ex)
  {
    hide Mapped, WfTree, TreeOwned;
    EmptyTree(f.dev.blocks);
    var blk, isNew;
    ok, blk, isNew, ex := f.GetBlock(l, true, goal, hint);
  }

  /** A run on which the condition fails: after the truncation the first request of the next write through
      fd, whose position has stayed where it was, leaves what is no file any more. */
  method Strand(t: FileTable, i: nat, fd: nat, other: nat, goal: nat, hint: nat) returns (ok: bool)
    requires t.Valid() && Positioned(t.S()) && i < |t.mount.files|
    requires fd < MAX_FD && other < MAX_FD && fd != other && !t.used[fd] && !t.used[other]
    modifies t.used, t.table, t.Below()
    ensures t.mount.files == old(t.mount.files) && t.mount.files[i].ext.Shape()
    ensures t.mount.alloc.Valid() && (!ok ==> t.mount.alloc.Avail() == {})
    ensures ok ==> forall size: nat, m: nat :: !FileOk(t.mount.dev.blocks, t.mount.files[i].ext.Tree(), size, m)
  {
    hide Mount.Valid, Mount.FilesRepr, Mount.Shared, Mount.Own, Safe, FileOk, Next, Positioned, Mapped, Room,
        CutUnderneath, WfTree, TreeOwned, FileTable.Valid;
    ghost var s, u, buf;
    ok, s, u, buf := CutShort(t, i, fd, other, goal, hint);
    t.StateOf(i);
    if !ok {
      return;
    }
    ghost var v := t.S();
    t.MemoryOf(i);
    var f := t.mount.files[i].ext;
    Stranded(s, u, v, fd, other, i, buf, f.dev.blocks, f.Tree(), f.alloc.Free(), Entry(0, 0, 0));
    ghost var ex;
    ok, ex := FirstBlock(f, t.table[fd].pos / BLOCK_BYTES, goal, hint);
    if ok {
      Stranded(s, u, v, fd, other, i, buf, f.dev.blocks, f.Tree(), f.alloc.Free(), ex);
    }
  }

  ghost predicate DidRead(s: Sys, fd: int, count: nat, r: int, out: seq<bv8>, t: Sys) {
    if 0 <= fd < |s.fds| && s.fds[fd].Some? then r == |out| && Next(s, Op.Read(fd, count, out), t)
    else r == -EBADF && t == s
  }

  ghost predicate DidWrite(s: Sys, fd: int, buf: seq<bv8>, r: int, t: Sys) {
    if 0 <= fd < |s.fds| && s.fds[fd].Some? then
      && (r == |buf| || r == -1) && Next(s, Op.Write(fd, buf, r != -1), t)
      && RefNext(View(s), Op.Write(fd, buf, r != -1), View(t))
    else r == -EBADF && t == s
  }

  lemma ReadDone(s: Sys, fd: nat, count: nat, out: seq<bv8>, t: Sys)
    requires InUse(s, fd) && t.vol == s.vol
    requires out == Slice(BytesOf(s.vol.disk, s.vol.files[s.fds[fd].value.file]), s.fds[fd].value.pos, count)
    requires t.fds == s.fds[fd := Some(Desc(s.fds[fd].value.file, s.fds[fd].value.pos + |out|))]
    ensures DidRead(s, fd, count, |out|, out, t)
  {
  }

  lemma NotRead(s: Sys, fd: int, count: nat)
    requires !(0 <= fd < |s.fds| && s.fds[fd].Some?)
    ensures DidRead(s, fd, count, -EBADF, [], s)
  {
  }

  lemma IsPositioned(s: Sys, fd: nat)
    requires Positioned(s) && fd < |s.fds|
    ensures PositionedAt(s, fd)
  {
  }

  lemma WriteDone(s: Sys, t: Sys, fd: nat, buf: seq<bv8>, ok: bool, gone: set<nat>)
    requires Safe(s.vol) && Positioned(s) && InUse(s, fd) && PositionedAt(s, fd)
    requires InReach(s, Op.Write(fd, buf, ok)) && Changed(s.vol, t.vol, s.fds[fd].value.file, gone)
    requires var Desc(i, pos) := s.fds[fd].value;
             if ok then
               && BytesOf(t.vol.disk, t.vol.files[i]) == Overlay(BytesOf(s.vol.disk, s.vol.files[i]), pos, buf)
               && t.fds == s.fds[fd := Some(Desc(i, pos + |buf|))]
             else
               && PartWritten(BytesOf(s.vol.disk, s.vol.files[i]), pos, buf, BytesOf(t.vol.disk, t.vol.files[i]))
               && t.fds == s.fds
    ensures DidWrite(s, fd, buf, if ok then |buf| else -1, t) && Positioned(t)
  {
    assert Wrote(s, t, fd, buf, ok, gone);
    hide Safe, Wrote, RefNext, View;
    StepPositions(s, Op.Write(fd, buf, ok), t);
    StepRefines(s, Op.Write(fd, buf, ok), t);
  }

  lemma NotWritten(s: Sys, fd: int, buf: seq<bv8>)
    requires !(0 <= fd < |s.fds| && s.fds[fd].Some?)
    ensures DidWrite(s, fd, buf, -EBADF, s)
  {
  }
}
