/**
 A mounted volume: any number of files on one device with one block allocator.  Every operation keeps
 the volume safe, does to its own file what reading and writing a sequence of bytes would do, and
 leaves the bytes of all other files alone.
 */
module Volume {
  import opened Runs
  import opened FreeSpace
  import opened Balloc
  import opened ExtentTree
  import opened TreePath
  import opened TreeSpine
  import opened ExtentNode
  import opened Extents
  import opened FileData
  import opened RegularFile
  import opened InodeFree
  import opened VolumeState

  class Mount {
    const dev: Device
    const alloc: Allocator
    const pool: ScratchPool
    var files: seq<File>
    /** The state as a value: see VolumeState. */
    ghost var vol: Vol

    /** A volume without files: what is not free is held by its metadata. */
    constructor (dev: Device, alloc: Allocator, pool: ScratchPool)
      requires alloc.Valid() && pool.Valid() && pool.used[..] == [false, false, false, false]
      requires dev as object !in alloc.Repr()
      requires pool.used as object !in alloc.Repr() + {dev} && pool.bufs as object !in alloc.Repr() + {dev}
      ensures Valid() && files == []
    {
      this.dev, this.alloc, this.pool := dev, alloc, pool;
      files := [];
      ghost var all := RunSet(0, alloc.geo.blocks);
      vol := Vol(dev.blocks, alloc.Free(), [], multiset(all - alloc.Free()), all);
      new;
      assert alloc.Free() <= all;
      assert multiset(vol.free) + vol.other == multiset(all);
    }

    /** The memory of one file. */
    function Own(f: File): set<object> {
      {f, f.ext, f.ext.root, f.ext.root.slots}
    }

    function Shared(): set<object> {
      {this, dev, pool.used, pool.bufs} + alloc.Repr()
    }

    function ReprOf(fs: seq<File>): set<object> {
      set i, o | 0 <= i < |fs| && o in Own(fs[i]) :: o
    }

    function FilesRepr(): set<object>
      reads this`files
    {
      ReprOf(files)
    }

    /** The files are separate objects that share the device and the allocator. */
    ghost predicate Objects()
      reads this`files
    {
      && pool.Valid() && pool.used != pool.bufs as object
      && dev as object !in alloc.Repr() && this as object !in alloc.Repr()
      && pool.used as object !in alloc.Repr() + {dev} && pool.bufs as object !in alloc.Repr() + {dev}
      && (forall i :: 0 <= i < |files| ==> Belongs(files[i]))
      && (forall i, j :: 0 <= i < j < |files| ==> Own(files[i]) !! Own(files[j]))
    }

    ghost predicate Belongs(f: File) {
      && f.ext.dev == dev && f.ext.alloc == alloc && Own(f) !! Shared()
      && f as object !in {f.ext as object, f.ext.root, f.ext.root.slots}
    }

    /** s is the state of f. */
    ghost predicate Mirrors(f: File, s: FileState)
      reads f, f.ext, f.ext.root, f.ext.root.slots
    {
      f.ext.Shape() && s == FileState(f.ext.Tree(), f.size, f.mapped)
    }

    ghost predicate Valid()
      reads Shared(), FilesRepr()
    {
      && Objects() && alloc.Valid()
      && pool.used[..] == [false, false, false, false]
      && vol.disk == dev.blocks && vol.free == alloc.Free() && |vol.files| == |files|
      && (forall i :: 0 <= i < |files| ==> Mirrors(files[i], vol.files[i]))
      && Safe(vol) && Inside(multiset(vol.all), alloc.geo.blocks)
    }

    /** The contents of file i. */
    ghost function Bytes(i: nat): seq<bv8>
      requires i < |vol.files|
      reads this
    {
      BytesOf(vol.disk, vol.files[i])
    }

    lemma FileValid(i: nat)
      requires Valid() && i < |files|
      ensures files[i].Valid() && files[i].Bytes() == Bytes(i) && files[i].Owned() == OwnedBy(vol.disk, vol.files[i])
      ensures Inside(files[i].Owned(), alloc.geo.blocks)
    {
      hide WfTree, Conserved, Total, TreeOwned, Contents, CountsMatch, FreeSet;
      assert Mirrors(files[i], vol.files[i]) && FileWf(vol.disk, vol.files[i]);
      OwnedApart(vol, i);
      forall b | b in files[i].Owned()
        ensures b < alloc.geo.blocks
      {
        assert b in multiset(vol.all);
      }
    }

    lemma ShallowFile(i: nat)
      requires Valid() && i < |files|
      ensures files[i].ext.Shape() && files[i].ext.Tree().depth <= FILE_DEPTH
    {
      hide WfTree, FileOk, Spine, Conserved;
      assert Mirrors(files[i], vol.files[i]) && FileWf(vol.disk, vol.files[i]);
    }

    /** vfs_read on file i. */
    method Read(i: nat, count: nat, pos: nat) returns (out: seq<bv8>)
      requires Valid() && i < |files|
      modifies files[i].ext, files[i].ext.root, files[i].ext.root.slots, dev, alloc.Repr()
      ensures Valid() && vol == old(vol) && files == old(files)
      ensures out == if pos < |Bytes(i)| then Bytes(i)[pos..Smaller(pos + count, |Bytes(i)|)] else []
    {
      hide Safe, FileOk, WfTree, TreeOwned, Contents, CountsMatch, FreeSet, Inside, Apart;
      FileValid(i);
      out := files[i].Read(count, pos);
    }

    /** vfs_write on file i. */
    method Write(i: nat, buf: seq<bv8>, pos: nat, goal: nat, hint: nat) returns (ok: bool, ghost gone: set<nat>)
      requires Valid() && i < |files| && pos <= |Bytes(i)| && pos + |buf| <= POS_LIMIT
      modifies this`vol, files[i]
      modifies files[i].ext, files[i].ext.root, files[i].ext.root.slots, dev, alloc.Repr()
      ensures Valid() && files == old(files) && Step(old(vol), vol) && Changed(old(vol), vol, i, gone)
      ensures ok ==> Bytes(i) == Overlay(old(Bytes(i)), pos, buf)
      ensures !ok ==> alloc.Avail() == {} && PartWritten(old(Bytes(i)), pos, buf, Bytes(i))
      ensures forall j: nat :: j < |files| && j != i ==> Bytes(j) == old(Bytes(j))
    {
      hide Safe, FileOk, WfTree, TreeOwned, Contents, CountsMatch, FreeSet, AvailSet, Inside, Apart, Moved, Overlay,
          PartWritten, Step;
      FileValid(i);
      ghost var v, f := vol, files[i];
      var written;
      ok, written, gone := files[i].Write(buf, pos, goal, hint);
      vol := Vol(dev.blocks, alloc.Free(), v.files[i := FileState(f.ext.Tree(), f.size, f.mapped)],
                 v.other + multiset(gone), v.all);
      assert Changed(v, vol, i, gone);
      ChangedSafe(v, vol, i, gone);
      assert Step(v, vol) by {
        StepChanged(v, vol, i, gone);
      }
    }

    /** Opening file i with O_TRUNC. */
    method Truncate(i: nat) returns (ghost leak: multiset<nat>)
      requires Valid() && i < |files|
      modifies this`vol, files[i], files[i].ext, alloc, pool.used, pool.bufs
      ensures Valid() && files == old(files) && Step(old(vol), vol) && Emptied(old(vol), vol, i, leak)
      ensures Bytes(i) == []
      ensures forall j: nat :: j < |files| && j != i ==> Bytes(j) == old(Bytes(j))
      ensures leak == multiset{} && vol.other == old(vol.other)
    {
      hide Safe, FileOk, WfTree, TreeOwned, Contents, CountsMatch, FreeSet, Inside, Apart, Step;
      FileValid(i);
      ShallowFile(i);
      ghost var v, f := vol, files[i];
      var t := new Truncation(files[i], pool);
      leak := t.FreeDataBlocks();
      vol := Vol(dev.blocks, alloc.Free(), v.files[i := EMPTY_FILE], v.other + leak, v.all);
      assert Emptied(v, vol, i, leak);
      EmptiedSafe(v, vol, i, leak);
      StepEmptied(v, vol, i, leak);
    }

    /** A new regular file. */
    method Create() returns (i: nat)
      requires Valid()
      modifies this`vol, this`files
      ensures Valid() && |files| == |old(files)| + 1 && i == |old(files)| && Step(old(vol), vol)
      ensures Created(old(vol), vol) && fresh(Own(files[i]))
      ensures Bytes(i) == []
      ensures forall j: nat :: j < |old(files)| ==> files[j] == old(files[j]) && Bytes(j) == old(Bytes(j))
    {
      hide Safe, FileOk, WfTree, TreeOwned, Contents, CountsMatch, FreeSet, Inside, Apart, Step, WfGeo, Lean;
      ghost var v := vol;
      var ext := new ExtentFile(dev, alloc);
      var f := new File(ext);
      NothingOwned(dev.blocks);
      i := |files|;
      files := files + [f];
      vol := v.(files := v.files + [EMPTY_FILE]);
      CreatedSafe(v, vol);
      StepCreated(v, vol);
    }

    /** A block for another part of the file system, such as a directory. */
    method Grab() returns (blk: nat)
      requires Valid()
      modifies this`vol, alloc.Repr()
      ensures Valid() && files == old(files) && Step(old(vol), vol)
      ensures blk == 0 ==> vol == old(vol)
      ensures blk != 0 ==> vol.other == old(vol.other) + multiset{blk}
      ensures forall j: nat :: j < |files| ==> Bytes(j) == old(Bytes(j))
    {
      hide Safe, FileOk, WfTree, TreeOwned, Contents, CountsMatch, FreeSet, AvailSet, Inside, Apart, Step;
      ghost var v := vol;
      blk := alloc.NewBlock();
      ghost var s: set<nat> := if blk == 0 then {} else RunSet(blk, 1);
      vol := v.(free := v.free - s, other := v.other + multiset(s));
      OneBlock(blk);
      assert v.free - {} == v.free;
      assert Grabbed(v, vol, s);
      ElsewhereSafe(v, vol);
      StepGrabbed(v, vol, s);
    }

    /** And back. */
    method Release(blk: nat)
      requires Valid() && blk in vol.other
      modifies this`vol, alloc.Repr()
      ensures Valid() && files == old(files) && Step(old(vol), vol)
      ensures vol.free == old(vol.free) + {blk}
      ensures forall j: nat :: j < |files| ==> Bytes(j) == old(Bytes(j))
    {
      hide Safe, FileOk, WfTree, TreeOwned, Contents, CountsMatch, FreeSet, AvailSet, Inside, Apart, Step, Released;
      ghost var v := vol;
      HeldInside(v, blk, alloc.geo.blocks);
      var ok := alloc.FreeBlock(blk);
      vol := v.(free := v.free + {blk}, other := v.other - multiset{blk});
      ReleasedHere(v, vol, blk);
      ElsewhereSafe(v, vol);
      StepReleased(v, vol, blk);
    }
  }

  lemma OneBlock(b: nat)
    ensures RunSet(b, 1) == {b}
  {
    assert InRun(b, b, 1);
  }

  lemma HeldInside(v: Vol, b: nat, blocks: nat)
    requires Safe(v) && b in v.other && Inside(multiset(v.all), blocks)
    ensures b < blocks
  {
    assert (multiset(v.free) + Total(v.disk, v.files) + v.other)[b] == multiset(v.all)[b];
  }

  lemma ReleasedHere(v: Vol, w: Vol, b: nat)
    requires b in v.other && w == v.(free := v.free + {b}, other := v.other - multiset{b})
    ensures Released(v, w, b)
  {
  }

  lemma StepChanged(v: Vol, w: Vol, i: nat, gone: set<nat>)
    requires Changed(v, w, i, gone)
    ensures Step(v, w)
  {
  }

  lemma StepEmptied(v: Vol, w: Vol, i: nat, leak: multiset<nat>)
    requires Emptied(v, w, i, leak)
    ensures Step(v, w)
  {
  }

  lemma StepCreated(v: Vol, w: Vol)
    requires Created(v, w)
    ensures Step(v, w)
  {
  }

  lemma StepGrabbed(v: Vol, w: Vol, s: set<nat>)
    requires Grabbed(v, w, s)
    ensures Step(v, w)
  {
  }

  lemma StepReleased(v: Vol, w: Vol, b: nat)
    requires Released(v, w, b)
    ensures Step(v, w)
  {
  }
}
