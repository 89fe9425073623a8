/**
 Reading and writing regular files (fs/ext4/file.c): byte ranges cut into blocks, with runs of whole
 blocks read and written in batches.  The file is a sequence of bytes.
 */
module RegularFile {
  import opened Wrappers
  import opened Runs
  import opened FreeSpace
  import opened Balloc
  import opened ExtentTree
  import opened LeafInsert
  import opened TreeUpdate
  import opened TreePath
  import opened TreeInsert
  import opened TreeSpine
  import opened Extents
  import opened BlockIo
  import opened FileData

  const MAX_BATCH: nat := 64

  /** ext4_read_block.  A block that holds no file data yet reads as some 4096 bytes. */
  method ReadBlock(dev: Device, b: nat) returns (bytes: seq<bv8>)
    ensures |bytes| == BLOCK_BYTES
    ensures HasData(dev.blocks, b) ==> bytes == dev.blocks[b].bytes
  {
    if HasData(dev.blocks, b) {
      return dev.blocks[b].bytes;
    }
    assert |seq(BLOCK_BYTES, _ => 0 as bv8)| == BLOCK_BYTES;
    bytes :| |bytes| == BLOCK_BYTES;
  }

  /** ext4_write_block */
  method WriteBlock(dev: Device, b: nat, bytes: seq<bv8>)
    requires |bytes| == BLOCK_BYTES
    modifies dev
    ensures dev.blocks == old(dev.blocks)[b := DataBlock(bytes)]
  {
    dev.blocks := dev.blocks[b := DataBlock(bytes)];
  }

  /** ext4_read_blocks: one request, of which BlockIo.SectorDevice.ReadBlocks shows that the sectors give
      these bytes. */
  method ReadBlocks(dev: Device, blk: nat, n: nat) returns (bytes: seq<bv8>)
    ensures Shows(dev.blocks, blk, n, bytes)
  {
    ShowsSome(dev.blocks, blk, n);
    bytes :| Shows(dev.blocks, blk, n, bytes);
  }

  /** ext4_write_blocks: one request, of which BlockIo.SectorDevice.WriteBlocks shows that the sectors then
      back this disk. */
  method WriteBlocks(dev: Device, blk: nat, n: nat, bytes: seq<bv8>)
    requires |bytes| == n * BLOCK_BYTES
    modifies dev
    ensures dev.blocks == PutData(old(dev.blocks), blk, n, bytes)
  {
    dev.blocks := PutData(dev.blocks, blk, n, bytes);
  }

  lemma {:induction false} ShowsSome(disk: Disk, blk: nat, n: nat)
    ensures exists bytes :: Shows(disk, blk, n, bytes)
  {
    if n == 0 {
      assert Shows(disk, blk, 0, []);
    } else {
      ShowsSome(disk, blk, n - 1);
      var t :| Shows(disk, blk, n - 1, t);
      var b := blk + n - 1;
      var last := if HasData(disk, b) then disk[b].bytes else seq(BLOCK_BYTES, _ => 0);
      forall i: nat | i < n && HasData(disk, blk + i)
        ensures Piece(t + last, i) == disk[blk + i].bytes
      {
        if i < n - 1 {
          assert Piece(t + last, i) == Piece(t, i);
        } else {
          assert Piece(t + last, i) == last;
        }
      }
      assert Shows(disk, blk, n, t + last);
    }
  }

  /** struct inode of a regular file that uses extents. */
  class File {
    const ext: ExtentFile
    var size: nat
    /** The number of mapped blocks. */
    ghost var mapped: nat

    constructor (ext: ExtentFile)
      requires ext.Valid() && ext.Tree() == EMPTY_TREE
      ensures Valid() && this.ext == ext && size == 0 && mapped == 0
    {
      this.ext, size, mapped := ext, 0, 0;
      new;
      EmptyFile(ext.dev.blocks);
    }

    function Repr(): set<object> {
      {this} + ext.Repr()
    }

    ghost predicate Valid()
      reads Repr()
    {
      && this as object !in ext.Repr()
      && ext.Valid() && FileOk(ext.dev.blocks, ext.Tree(), size, mapped) && size <= POS_LIMIT
      && Lean(ext.dev.blocks, ext.Tree())
    }

    ghost function Bytes(): (s: seq<bv8>)
      requires Valid()
      reads Repr()
      ensures |s| == size
    {
      Contents(ext.dev.blocks, ext.Tree(), size)
    }

    // ---------- reading ----------

    /** Nothing that can be seen of the file, the disk or the free blocks has changed. */
    twostate predicate Same()
      requires old(Valid()) && Valid()
      reads Repr()
    {
      && ext.Tree() == old(ext.Tree()) && ext.dev.blocks == old(ext.dev.blocks)
      && ext.alloc.Free() == old(ext.alloc.Free()) && size == old(size) && mapped == old(mapped)
    }

    /** n consecutive blocks that hold the file's blocks from x on, in one request if there are several. */
    method ReadRun(x: nat, blk: nat, n: nat) returns (bytes: seq<bv8>)
      requires Valid() && 1 <= n && (x + n) * BLOCK_BYTES <= size
      requires forall y :: x <= y < x + n ==> TreeLookup(ext.dev.blocks, ext.Tree(), y) == Some(blk + (y - x))
      ensures bytes == Bytes()[x * BLOCK_BYTES..(x + n) * BLOCK_BYTES]
    {
      hide FileOk, WfTree, Apart, TreeLookup, Contents, FreeSet, CountsMatch;
      if n > 1 {
        bytes := ReadBlocks(ext.dev, blk, n);
      } else {
        bytes := ReadBlock(ext.dev, blk);
        assert Piece(bytes, 0) == bytes;
      }
      ShownSlice(ext.dev.blocks, ext.Tree(), size, mapped, x, blk, n, bytes);
    }

    /** Part of one block, through the scratch buffer. */
    method ReadPart(x: nat, off: nat, n: nat) returns (bytes: seq<bv8>)
      requires Valid() && off + n <= BLOCK_BYTES && 0 < n && x * BLOCK_BYTES + off + n <= size
      modifies ext`inited, ext.root, ext.root.slots, ext.dev, ext.alloc.Repr()
      ensures Valid() && Same()
      ensures bytes == Bytes()[x * BLOCK_BYTES + off..x * BLOCK_BYTES + off + n]
    {
      hide FileOk, WfTree, Apart, TreeLookup, Contents, FreeSet, CountsMatch, Mapped, Room;
      BlockSlice(ext.dev.blocks, ext.Tree(), size, mapped, x, off, n);
      var ok, blk, isNew, ex := ext.GetBlock(x, false, 1, 0);
      var block := ReadBlock(ext.dev, blk);
      bytes := block[off..off + n];
    }

    /** A run of whole blocks, as many as the extent, the request and the batch size allow. */
    method ReadBatch(x: nat, max: nat) returns (bytes: seq<bv8>)
      requires Valid() && 1 <= max && (x + max) * BLOCK_BYTES <= size
      ensures BLOCK_BYTES <= |bytes| <= max * BLOCK_BYTES && |bytes| % BLOCK_BYTES == 0
      ensures bytes == Bytes()[x * BLOCK_BYTES..x * BLOCK_BYTES + |bytes|]
    {
      hide FileOk, WfTree, Apart, TreeLookup, Contents, FreeSet, CountsMatch;
      BlockSlice(ext.dev.blocks, ext.Tree(), size, mapped, x, 0, BLOCK_BYTES);
      var blk, run := ext.MapBlocks(x, max);
      bytes := ReadRun(x, blk, run);
    }

    /** One round of the loop of ext4_file_read: some of the bytes from pos on, none from end on. */
    method ReadRound(pos: nat, end: nat) returns (more: seq<bv8>)
      requires Valid() && pos < end <= size
      modifies ext`inited, ext.root, ext.root.slots, ext.dev, ext.alloc.Repr()
      ensures Valid() && Same() && Bytes() == old(Bytes())
      ensures 1 <= |more| && pos + |more| <= end && more == Bytes()[pos..pos + |more|]
    {
      hide FileOk, WfTree, Apart, TreeLookup, Contents, FreeSet, CountsMatch;
      var x, off := (pos % POS_LIMIT) / BLOCK_BYTES, (pos % POS_LIMIT) % BLOCK_BYTES;
      var n := Smaller(BLOCK_BYTES - off, end - pos);
      if off == 0 && n == BLOCK_BYTES {
        more := ReadBatch(x, Smaller((end - pos) / BLOCK_BYTES, MAX_BATCH));
      } else {
        more := ReadPart(x, off, n);
      }
    }

    /** ext4_file_read */
    method Read(count: nat, pos0: nat) returns (out: seq<bv8>)
      requires Valid()
      modifies ext`inited, ext.root, ext.root.slots, ext.dev, ext.alloc.Repr()
      ensures Valid() && Same()
      ensures out == if pos0 < size then Bytes()[pos0..Smaller(pos0 + count, size)] else []
    {
      hide FileOk, WfTree, Apart, TreeLookup, Contents, FreeSet, CountsMatch;
      if pos0 >= size {
        return [];
      }
      var end := Smaller(pos0 + count, size);
      ghost var s := Bytes();
      out := [];
      var pos := pos0;
      while pos < end
        invariant pos0 <= pos <= end
        invariant Valid() && Same() && Bytes() == s
        invariant out == s[pos0..pos]
      {
        var more := ReadRound(pos, end);
        AppendSlice(s, out, more, pos0, pos, pos + |more|);
        out, pos := out + more, pos + |more|;
      }
    }

    // ---------- writing ----------

    /** With size |t| the file would read t: what holds while a write is under way and the inode's
        size has not been brought up to date. */
    ghost predicate Holds(t: seq<bv8>)
      reads Repr()
    {
      && this as object !in ext.Repr() && ext.Valid()
      && FileOk(ext.dev.blocks, ext.Tree(), |t|, mapped) && Contents(ext.dev.blocks, ext.Tree(), |t|) == t
      && Lean(ext.dev.blocks, ext.Tree())
    }

    ghost function Owned(): multiset<nat>
      requires ext.Shape()
      reads ext, ext.root, ext.root.slots, ext.dev
    {
      TreeOwned(ext.dev.blocks, ext.Tree())
    }

    /** Blocks taken from the free set went to this file's tree, apart from those in gone, which a
        failed insertion has left to nobody; nothing else on disk was touched. */
    twostate predicate Footprint(gone: set<nat>)
      requires old(ext.Shape()) && ext.Shape() && old(ext.alloc.Valid()) && ext.alloc.Valid()
      reads ext, ext.root, ext.root.slots, ext.dev, ext.alloc.Repr()
    {
      Moved(old(ext.dev.blocks), old(Owned()), old(ext.alloc.Free()), ext.dev.blocks, Owned(), ext.alloc.Free(), gone)
    }

    /** ext4_get_data_block with create on block x, at most one past the mapped ones. */
    method MapOne(x: nat, goal: nat, hint: nat, ghost t: seq<bv8>) returns (ok: bool, blk: nat, isNew: bool,
        ghost gone: set<nat>)
      requires Holds(t) && x <= mapped && (x + 1) * BLOCK_BYTES <= POS_LIMIT
      modifies this`mapped, ext`inited, ext.root, ext.root.slots, ext.dev, ext.alloc.Repr()
      ensures Holds(t) && Footprint(gone) && old(mapped) <= mapped
      ensures forall y: nat :: y < old(mapped) ==>
        TreeLookup(ext.dev.blocks, ext.Tree(), y) == old(TreeLookup(ext.dev.blocks, ext.Tree(), y))
      ensures ok ==> x < mapped && TreeLookup(ext.dev.blocks, ext.Tree(), x) == Some(blk) && blk != 0
      ensures ok ==> (isNew <==> x == old(mapped)) && gone == {}
      ensures !ok ==> ext.alloc.Avail() == {}
    {
      hide FileOk, WfTree, Apart, TreeLookup, Contents, FreeSet, CountsMatch, AvailSet, Mapped, Room, AtEnd,
          OnlyTouched, Moved, TreeOwned;
      ghost var d0, r0, free0, m0 := ext.dev.blocks, ext.Tree(), ext.alloc.Free(), mapped;
      RoomAtEnd(d0, r0, free0, |t|, m0, goal);
      ghost var ex;
      ok, blk, isNew, ex := ext.GetBlock(x, true, goal, hint);
      MappedOne(d0, r0, free0, |t|, m0, x, ok, ext.dev.blocks, ext.Tree(), ext.alloc.Free(), ex);
      if !ok {
        gone := free0 - ext.alloc.Free();
      } else {
        gone := {};
        if isNew {
          mapped := m0 + ex.len;
        }
      }
    }

    /** Block x goes out with the bytes b in place. */
    method PutBlock(x: nat, blk: nat, off: nat, ghost b: seq<bv8>, block: seq<bv8>, ghost t: seq<bv8>)
      requires Holds(t) && x < mapped && x * BLOCK_BYTES + off <= |t|
      requires TreeLookup(ext.dev.blocks, ext.Tree(), x) == Some(blk)
      requires Patched(ext.dev.blocks, ext.Tree(), |t|, x, off, b, block) && |block| == BLOCK_BYTES
      modifies ext.dev
      ensures Holds(Overlay(t, x * BLOCK_BYTES + off, b)) && Footprint({})
      ensures ext.dev.blocks == old(ext.dev.blocks)[blk := DataBlock(block)]
    {
      hide FileOk, WfTree, Apart, TreeLookup, Contents, FreeSet, CountsMatch, OnlyTouched, TreeOwned, Overlay, Patched;
      ghost var d0, r0, size := ext.dev.blocks, ext.Tree(), |t|;
      WriteBlockStep(d0, r0, size, mapped, x, off, b, block, blk, t);
      WriteBlock(ext.dev, blk, block);
      WriteIsMoved(d0, ext.dev.blocks, TreeOwned(d0, r0), ext.alloc.Free());
    }

    /** n whole blocks, in one request if there are several. */
    method WriteRun(x: nat, blk: nat, n: nat, bytes: seq<bv8>, ghost t: seq<bv8>)
      requires Holds(t) && 1 <= n && x + n <= mapped && |bytes| == n * BLOCK_BYTES && x * BLOCK_BYTES <= |t|
      requires forall y :: x <= y < x + n ==> TreeLookup(ext.dev.blocks, ext.Tree(), y) == Some(blk + (y - x))
      modifies ext.dev
      ensures Holds(Overlay(t, x * BLOCK_BYTES, bytes)) && Footprint({})
    {
      hide FileOk, WfTree, Apart, TreeLookup, Contents, FreeSet, CountsMatch, OnlyTouched, TreeOwned, Overlay;
      ghost var d0 := ext.dev.blocks;
      RunWritten(d0, ext.Tree(), mapped, x, blk, n, bytes, t);
      if n > 1 {
        WriteBlocks(ext.dev, blk, n, bytes);
      } else {
        OneBlockPut(d0, blk, bytes);
        WriteBlock(ext.dev, blk, bytes);
      }
      WriteIsMoved(d0, ext.dev.blocks, TreeOwned(d0, ext.Tree()), ext.alloc.Free());
    }

    /** Lines 450-470: how many blocks from x on, up to limit, are mapped or can be mapped one after
        the other. */
    method ProbeRun(x: nat, blk: nat, limit: nat, goal: nat, hint: nat, ghost t: seq<bv8>)
      returns (run: nat, ghost gone: set<nat>)
      requires Holds(t) && x < mapped && 1 <= limit && (x + limit) * BLOCK_BYTES <= POS_LIMIT
      requires TreeLookup(ext.dev.blocks, ext.Tree(), x) == Some(blk)
      modifies this`mapped, ext`inited, ext.root, ext.root.slots, ext.dev, ext.alloc.Repr()
      ensures Holds(t) && Footprint(gone)
      ensures 1 <= run <= limit && x + run <= mapped
      ensures forall y :: x <= y < x + run ==> TreeLookup(ext.dev.blocks, ext.Tree(), y) == Some(blk + (y - x))
    {
      hide FileOk, WfTree, Apart, TreeLookup, Contents, FreeSet, AvailSet, CountsMatch, OnlyTouched, TreeOwned, Moved;
      ghost var d0, owned, free := ext.dev.blocks, Owned(), ext.alloc.Free();
      WriteIsMoved(d0, d0, owned, free);
      run, gone := 1, {};
      while run < limit
        invariant 1 <= run <= limit && x + run <= mapped
        invariant Holds(t) && Moved(d0, owned, free, ext.dev.blocks, Owned(), ext.alloc.Free(), gone)
        invariant forall y :: x <= y < x + run ==> TreeLookup(ext.dev.blocks, ext.Tree(), y) == Some(blk + (y - x))
      {
        ghost var d1, o1, f1, g1 := ext.dev.blocks, Owned(), ext.alloc.Free(), gone;
        ghost var g2;
        var ok, next, isNew;
        ok, next, isNew, g2 := MapOne(x + run, goal, hint, t);
        MovedTwice(d0, owned, free, d1, o1, f1, ext.dev.blocks, Owned(), ext.alloc.Free(), g1, g2);
        gone := g1 + g2;
        if !ok || next != blk + run {
          break;
        }
        run := run + 1;
      }
    }

    /** Lines 491-510: part of a block, by way of the scratch buffer.  A new block is zero around that part. */
    method WritePart(x: nat, off: nat, b: seq<bv8>, blk: nat, isNew: bool, ghost t: seq<bv8>)
      requires Holds(t) && x < mapped && x * BLOCK_BYTES + off <= |t| && off + |b| <= BLOCK_BYTES
      requires TreeLookup(ext.dev.blocks, ext.Tree(), x) == Some(blk)
      requires isNew ==> |t| <= x * BLOCK_BYTES
      modifies ext.dev
      ensures Holds(Overlay(t, x * BLOCK_BYTES + off, b)) && Footprint({})
      ensures isNew ==>
        ext.dev.blocks == old(ext.dev.blocks)[blk := DataBlock(Zeros(off) + b + Zeros(BLOCK_BYTES - off - |b|))]
    {
      hide FileOk, WfTree, Apart, TreeLookup, Contents, FreeSet, CountsMatch, OnlyTouched, TreeOwned, Overlay, Patched;
      var block := Zeros(BLOCK_BYTES);
      if !isNew {
        block := ReadBlock(ext.dev, blk);
      }
      PatchedPart(ext.dev.blocks, ext.Tree(), |t|, mapped, x, blk, off, b, block);
      block := block[..off] + b + block[off + |b|..];
      assert isNew ==> block == Zeros(off) + b + Zeros(BLOCK_BYTES - off - |b|);
      PutBlock(x, blk, off, b, block, t);
    }

    /** One round of the loop of ext4_file_write: n bytes of rest go to the file, or none when block x
        cannot be had. */
    method WriteRound(x: nat, off: nat, rest: seq<bv8>, goal: nat, hint: nat, ghost t: seq<bv8>)
      returns (ok: bool, n: nat, ghost gone: set<nat>)
      requires Holds(t) && off < BLOCK_BYTES && x * BLOCK_BYTES + off <= |t| && rest != []
      requires x * BLOCK_BYTES + off + |rest| <= POS_LIMIT
      modifies this`mapped, ext`inited, ext.root, ext.root.slots, ext.dev, ext.alloc.Repr()
      ensures n <= |rest| && Holds(if ok then Overlay(t, x * BLOCK_BYTES + off, rest[..n]) else t) && Footprint(gone)
      ensures ok ==> 1 <= n
      ensures !ok ==> ext.alloc.Avail() == {}
      ensures ok && x == old(mapped) && |rest| < BLOCK_BYTES - off ==>
        exists p :: p in ext.dev.blocks &&
                    ext.dev.blocks[p] == DataBlock(Zeros(off) + rest + Zeros(BLOCK_BYTES - off - |rest|))
    {
      hide FileOk, WfTree, Apart, TreeLookup, Contents, FreeSet, AvailSet, CountsMatch, OnlyTouched, TreeOwned,
          Overlay, Moved;
      ghost var d0, owned, free := ext.dev.blocks, Owned(), ext.alloc.Free();
      BlockInReach(d0, ext.Tree(), |t|, mapped, x, off);
      var blk, isNew;
      ok, blk, isNew, gone := MapOne(x, goal, hint, t);
      if !ok {
        return false, 0, gone;
      }
      ghost var d1, o1, f1, g1, g2 := ext.dev.blocks, Owned(), ext.alloc.Free(), gone, gone;
      n := Smaller(BLOCK_BYTES - off, |rest|);
      if off == 0 && n == BLOCK_BYTES {
        n, g2 := WriteBatch(x, blk, rest, goal, hint, t);
      } else {
        WritePart(x, off, rest[..n], blk, isNew, t);
        assert n == |rest| ==> rest[..n] == rest;
        assert isNew ==> blk in ext.dev.blocks;
        g2 := {};
      }
      MovedTwice(d0, owned, free, d1, o1, f1, ext.dev.blocks, Owned(), ext.alloc.Free(), g1, g2);
      gone := g1 + g2;
    }

    /** Whole blocks straight from the caller's buffer. */
    method WriteBatch(x: nat, blk: nat, rest: seq<bv8>, goal: nat, hint: nat, ghost t: seq<bv8>)
      returns (n: nat, ghost gone: set<nat>)
      requires Holds(t) && x * BLOCK_BYTES <= |t| && x < mapped && BLOCK_BYTES <= |rest|
      requires x * BLOCK_BYTES + |rest| <= POS_LIMIT
      requires TreeLookup(ext.dev.blocks, ext.Tree(), x) == Some(blk)
      modifies this`mapped, ext`inited, ext.root, ext.root.slots, ext.dev, ext.alloc.Repr()
      ensures 1 <= n <= |rest| && Holds(Overlay(t, x * BLOCK_BYTES, rest[..n])) && Footprint(gone)
    {
      hide FileOk, WfTree, Apart, TreeLookup, Contents, FreeSet, CountsMatch, OnlyTouched, TreeOwned, Overlay, Moved;
      ghost var d0, owned, free := ext.dev.blocks, Owned(), ext.alloc.Free();
      var run;
      run, gone := ProbeRun(x, blk, Smaller(|rest| / BLOCK_BYTES, MAX_BATCH), goal, hint, t);
      n := run * BLOCK_BYTES;
      ghost var d1, o1, f1 := ext.dev.blocks, Owned(), ext.alloc.Free();
      WriteRun(x, blk, run, rest[..n], t);
      MovedThen(d0, owned, free, d1, o1, f1, ext.dev.blocks, Owned(), ext.alloc.Free(), gone);
    }

    /** ext4_file_write.  The inode's size follows only when everything has been written; a failure
        leaves the file as long as it was, with a part of buf over it. */
    method Write(buf: seq<bv8>, pos0: nat, goal: nat, hint: nat) returns (ok: bool, written: nat, ghost gone: set<nat>)
      requires Valid() && pos0 <= size && pos0 + |buf| <= POS_LIMIT
      modifies this`size, this`mapped, ext`inited, ext.root, ext.root.slots, ext.dev, ext.alloc.Repr()
      ensures Valid() && Footprint(gone)
      ensures ok ==> written == |buf| && Bytes() == Overlay(old(Bytes()), pos0, buf)
      ensures !ok ==>
        && size == old(size) && ext.alloc.Avail() == {} && written < |buf|
        && |Overlay(old(Bytes()), pos0, buf[..written])| >= size
        && Bytes() == Overlay(old(Bytes()), pos0, buf[..written])[..size]
        && PartWritten(old(Bytes()), pos0, buf, Bytes())
    {
      hide FileOk, WfTree, Apart, TreeLookup, Contents, FreeSet, AvailSet, CountsMatch, OnlyTouched, TreeOwned,
          Overlay, Moved;
      ghost var d0, owned, free, s := ext.dev.blocks, Owned(), ext.alloc.Free(), Bytes();
      WriteIsMoved(d0, d0, owned, free);
      OverlayNone(s, pos0, buf[..0]);
      var pos, end := pos0, pos0 + |buf|;
      ok, written, gone := true, 0, {};
      while written < |buf|
        invariant 0 <= written <= |buf| && pos == pos0 + written && ok && size == old(size)
        invariant Holds(Overlay(s, pos0, buf[..written]))
        invariant Moved(d0, owned, free, ext.dev.blocks, Owned(), ext.alloc.Free(), gone)
      {
        ghost var t, d1, o1, f1, g1 := Overlay(s, pos0, buf[..written]), ext.dev.blocks, Owned(), ext.alloc.Free(),
            gone;
        var x, off := (pos % POS_LIMIT) / BLOCK_BYTES, (pos % POS_LIMIT) % BLOCK_BYTES;
        OverlaySize(s, pos0, buf[..written]);
        var n;
        ghost var g2;
        ok, n, g2 := WriteRound(x, off, buf[written..], goal, hint, t);
        MovedTwice(d0, owned, free, d1, o1, f1, ext.dev.blocks, Owned(), ext.alloc.Free(), g1, g2);
        gone := g1 + g2;
        if !ok {
          Shorten(ext.dev.blocks, ext.Tree(), |t|, mapped, size);
          return false, written, gone;
        }
        OverlayTwice(s, pos0, buf[..written], buf[written..][..n]);
        assert buf[..written] + buf[written..][..n] == buf[..written + n];
        written, pos := written + n, pos + n;
      }
      assert buf[..written] == buf;
      OverlaySize(s, pos0, buf);
      if end > size {
        size := end;
      }
    }
  }

  function Zeros(n: nat): (s: seq<bv8>)
    ensures |s| == n && forall i :: 0 <= i < n ==> s[i] == 0
  {
    seq(n, _ => 0)
  }

  /** after is before with a first part of buf over it from pos on, cut off at the old length. */
  ghost predicate PartWritten(before: seq<bv8>, pos: nat, buf: seq<bv8>, after: seq<bv8>)
    requires pos <= |before|
  {
    exists k | 0 <= k <= |buf| :: |Overlay(before, pos, buf[..k])| >= |before| && after == Overlay(before, pos,
        buf[..k])[..|before|]
  }

  /** Ownership over a stretch of a write: see Footprint. */
  ghost predicate Moved(d0: Disk, owned0: multiset<nat>, free0: set<nat>,
                        d1: Disk, owned1: multiset<nat>, free1: set<nat>, gone: set<nat>) {
    && free1 <= free0 && gone <= free0 - free1
    && owned1 + multiset(gone) == owned0 + multiset(free0 - free1)
    && OnlyTouched(d0, d1, owned0 + multiset(free0))
  }

  lemma WriteIsMoved(d0: Disk, d1: Disk, owned: multiset<nat>, free: set<nat>)
    requires OnlyTouched(d0, d1, owned)
    ensures Moved(d0, owned, free, d1, owned, free, {})
  {
    assert free - free == {};
  }

  lemma WriteBlockStep(disk: Disk, root: Node, size: nat, m: nat, x: nat, off: nat, b: seq<bv8>, block: seq<bv8>,
                       blk: nat, t: seq<bv8>)
    requires FileOk(disk, root, size, m) && x < m && x * BLOCK_BYTES + off <= size
    requires TreeLookup(disk, root, x) == Some(blk) && Patched(disk, root, size, x, off, b, block)
    requires size == |t| && Contents(disk, root, size) == t
    ensures var d1, t1 := disk[blk := DataBlock(block)], Overlay(t, x * BLOCK_BYTES + off, b);
            && FileOk(d1, root, |t1|, m) && Contents(d1, root, |t1|) == t1 && WfTree(d1, root)
            && (forall y: nat :: TreeLookup(d1, root, y) == TreeLookup(disk, root, y))
            && TreeOwned(d1, root) == TreeOwned(disk, root) && OnlyTouched(disk, d1, TreeOwned(disk, root))
            && (Lean(disk, root) ==> Lean(d1, root))
  {
    hide WfTree, TreeLookup, Contents, OnlyTouched, TreeOwned, Patched;
    WriteKeeps(disk, root, size, m, x, off, b, block, disk[blk := DataBlock(block)]);
  }

  lemma MovedThen(d0: Disk, owned0: multiset<nat>, free0: set<nat>, d1: Disk, owned1: multiset<nat>, free1: set<nat>,
                  d2: Disk, owned2: multiset<nat>, free2: set<nat>, gone: set<nat>)
    requires Moved(d0, owned0, free0, d1, owned1, free1, gone) && Moved(d1, owned1, free1, d2, owned2, free2, {})
    ensures Moved(d0, owned0, free0, d2, owned2, free2, gone)
  {
    hide Moved;
    MovedTwice(d0, owned0, free0, d1, owned1, free1, d2, owned2, free2, gone, {});
    assert gone + {} == gone;
  }

  lemma OneBlockPut(disk: Disk, blk: nat, bytes: seq<bv8>)
    requires |bytes| == BLOCK_BYTES
    ensures PutData(disk, blk, 1, bytes) == disk[blk := DataBlock(bytes)]
  {
    assert bytes[0..] == bytes && bytes[..0] == [];
  }

  /** A request for n blocks puts their bytes over the file as writing them one by one would. */
  lemma {:induction false} RunWritten(disk: Disk, root: Node, m: nat, x: nat, blk: nat, n: nat, bytes: seq<bv8>,
                                      t: seq<bv8>)
    requires FileOk(disk, root, |t|, m) && Contents(disk, root, |t|) == t
    requires x + n <= m && |bytes| == n * BLOCK_BYTES && x * BLOCK_BYTES <= |t|
    requires forall y :: x <= y < x + n ==> TreeLookup(disk, root, y) == Some(blk + (y - x))
    ensures var d1, t1 := PutData(disk, blk, n, bytes), Overlay(t, x * BLOCK_BYTES, bytes);
            && FileOk(d1, root, |t1|, m) && Contents(d1, root, |t1|) == t1 && WfTree(d1, root)
            && (forall y: nat :: TreeLookup(d1, root, y) == TreeLookup(disk, root, y))
            && TreeOwned(d1, root) == TreeOwned(disk, root) && OnlyTouched(disk, d1, TreeOwned(disk, root))
            && (Lean(disk, root) ==> Lean(d1, root))
  {
    hide WfTree, TreeLookup, Contents, TreeOwned, Patched, Overlay, OnlyTouched;
    if n == 0 {
      OverlayNone(t, x * BLOCK_BYTES, bytes);
      TouchedNone(disk, root, |t|, m);
    } else {
      var k := (n - 1) * BLOCK_BYTES;
      var first, last := bytes[..k], bytes[k..];
      RunWritten(disk, root, m, x, blk, n - 1, first, t);
      var d1, t1 := PutData(disk, blk, n - 1, first), Overlay(t, x * BLOCK_BYTES, first);
      OverlaySize(t, x * BLOCK_BYTES, first);
      PatchedWhole(d1, root, |t1|, x + n - 1, last);
      WriteBlockStep(d1, root, |t1|, m, x + n - 1, 0, last, last, blk + n - 1, t1);
      OverlayTwice(t, x * BLOCK_BYTES, first, last);
      assert first + last == bytes;
      TouchedStep(disk, d1, PutData(disk, blk, n, bytes), TreeOwned(disk, root));
    }
  }

  lemma TouchedNone(disk: Disk, root: Node, size: nat, m: nat)
    requires FileOk(disk, root, size, m)
    ensures WfTree(disk, root) && OnlyTouched(disk, disk, TreeOwned(disk, root))
  {
  }

  lemma TouchedStep(d0: Disk, d1: Disk, d2: Disk, s: multiset<nat>)
    requires OnlyTouched(d0, d1, s) && OnlyTouched(d1, d2, s)
    ensures OnlyTouched(d0, d2, s)
  {
  }

  /** The blocks a request shows are the slice of the file that lies there. */
  lemma {:induction false} ShownSlice(disk: Disk, root: Node, size: nat, m: nat, x: nat, blk: nat, n: nat,
                                      bytes: seq<bv8>)
    requires FileOk(disk, root, size, m) && (x + n) * BLOCK_BYTES <= size && Shows(disk, blk, n, bytes)
    requires forall y :: x <= y < x + n ==> TreeLookup(disk, root, y) == Some(blk + (y - x))
    ensures |Contents(disk, root, size)| == size
    ensures bytes == Contents(disk, root, size)[x * BLOCK_BYTES..(x + n) * BLOCK_BYTES]
  {
    hide FileOk, WfTree, TreeLookup, Contents;
    var s := Contents(disk, root, size);
    assert |s| == size by {
      ContentsSize(disk, root, size);
    }
    if n == 0 {
      assert bytes == [];
    } else {
      var k := (n - 1) * BLOCK_BYTES;
      var first := bytes[..k];
      assert Shows(disk, blk, n - 1, first) by {
        ShowsLess(disk, blk, n, bytes);
      }
      ShownSlice(disk, root, size, m, x, blk, n - 1, first);
      BlockSlice(disk, root, size, m, x + n - 1, 0, BLOCK_BYTES);
      var last := disk[blk + n - 1].bytes;
      assert last[0..BLOCK_BYTES] == last && Piece(bytes, n - 1) == last == bytes[k..];
      AppendSlice(s, first, last, x * BLOCK_BYTES, (x + n - 1) * BLOCK_BYTES, (x + n) * BLOCK_BYTES);
      assert first + last == bytes;
    }
  }

  lemma ContentsSize(disk: Disk, root: Node, size: nat)
    ensures |Contents(disk, root, size)| == size
  {
  }

  lemma ShowsLess(disk: Disk, blk: nat, n: nat, bytes: seq<bv8>)
    requires 1 <= n && Shows(disk, blk, n, bytes)
    ensures Shows(disk, blk, n - 1, bytes[..(n - 1) * BLOCK_BYTES])
  {
    var first := bytes[..(n - 1) * BLOCK_BYTES];
    forall i: nat | i < n - 1 && HasData(disk, blk + i)
      ensures Piece(first, i) == disk[blk + i].bytes
    {
      assert Piece(first, i) == Piece(bytes, i);
    }
  }

  /** A block that begins at or before the end of the file is mapped, or the first that is not. */
  lemma BlockInReach(disk: Disk, root: Node, size: nat, m: nat, x: nat, off: nat)
    requires FileOk(disk, root, size, m) && x * BLOCK_BYTES + off <= size
    ensures x <= m && (x == m ==> off == 0 && size == x * BLOCK_BYTES)
  {
    hide WfTree, TreeLookup;
  }

  /** The file with a smaller size shows a prefix. */
  lemma Shorten(disk: Disk, root: Node, size: nat, m: nat, less: nat)
    requires FileOk(disk, root, size, m) && less <= size
    ensures FileOk(disk, root, less, m) && Contents(disk, root, less) == Contents(disk, root, size)[..less]
  {
    hide WfTree, TreeLookup;
  }

  lemma OverlayNone(s: seq<bv8>, pos: nat, b: seq<bv8>)
    requires pos <= |s| && b == []
    ensures Overlay(s, pos, b) == s
  {
  }

  lemma OverlaySize(s: seq<bv8>, pos: nat, b: seq<bv8>)
    requires pos <= |s|
    ensures |Overlay(s, pos, b)| == Larger(|s|, pos + |b|)
  {
  }

  lemma PatchedPart(disk: Disk, root: Node, size: nat, m: nat, x: nat, blk: nat, off: nat, b: seq<bv8>, block: seq<bv8>)
    requires FileOk(disk, root, size, m) && |block| == BLOCK_BYTES && off + |b| <= BLOCK_BYTES
    requires TreeLookup(disk, root, x) == Some(blk)
    requires x * BLOCK_BYTES < size && HasData(disk, blk) ==> block == disk[blk].bytes
    ensures Patched(disk, root, size, x, off, b, block[..off] + b + block[off + |b|..])
  {
    hide WfTree, TreeLookup;
    var p := block[..off] + b + block[off + |b|..];
    assert p[off..off + |b|] == b;
    forall j: nat | j < BLOCK_BYTES && !(off <= j < off + |b|) && x * BLOCK_BYTES + j < size
      ensures p[j] == ByteAt(disk, root, x * BLOCK_BYTES + j)
    {
      assert (x * BLOCK_BYTES + j) / BLOCK_BYTES == x && (x * BLOCK_BYTES + j) % BLOCK_BYTES == j;
      assert Stored(disk, root, x);
    }
  }

  lemma PatchedWhole(disk: Disk, root: Node, size: nat, x: nat, b: seq<bv8>)
    requires |b| == BLOCK_BYTES
    ensures Patched(disk, root, size, x, 0, b, b)
  {
    hide TreeLookup;
  }

  lemma MovedTwice(d0: Disk, owned0: multiset<nat>, free0: set<nat>, d1: Disk, owned1: multiset<nat>, free1: set<nat>,
                   d2: Disk, owned2: multiset<nat>, free2: set<nat>, gone1: set<nat>, gone2: set<nat>)
    requires Moved(d0, owned0, free0, d1, owned1, free1, gone1) && Moved(d1, owned1, free1, d2, owned2, free2, gone2)
    ensures Moved(d0, owned0, free0, d2, owned2, free2, gone1 + gone2)
  {
    forall b: nat
      ensures (owned2 + multiset(gone1 + gone2))[b] == (owned0 + multiset(free0 - free2))[b]
    {
      assert (owned1 + multiset(gone1))[b] == (owned0 + multiset(free0 - free1))[b];
      assert (owned2 + multiset(gone2))[b] == (owned1 + multiset(free1 - free2))[b];
    }
    forall b | b !in owned0 + multiset(free0)
      ensures (b in d0 <==> b in d2) && (b in d0 ==> d0[b] == d2[b])
    {
      assert b !in multiset(free0 - free1);
      assert b !in owned1 + multiset(gone1);
      assert b !in owned1 + multiset(free1);
    }
  }

  /** A file whose blocks are a prefix has room at its end. */
  lemma RoomAtEnd(disk: Disk, root: Node, free: set<nat>, size: nat, m: nat, goal: nat)
    requires FileOk(disk, root, size, m)
    ensures (m + 1) * BLOCK_BYTES <= POS_LIMIT ==> Room(disk, root, free, m, goal)
    ensures AtEnd(disk, root, m)
    ensures forall x: nat :: x < m <==> TreeLookup(disk, root, x).Some?
  {
    hide WfList, Flat;
    if root.depth > 0 {
      FlatRange(disk, root.depth, root.entries, LBLOCKS, 0);
      assert TreeLookup(disk, root, root.entries[0].key).Some?;
    }
    forall x: nat | m <= x
      ensures TreeLookup(disk, root, x) == None
    {
    }
  }

  /** All the ways in which asking for block x can end leave the file's bytes alone. */
  lemma MappedOne(d0: Disk, r0: Node, free0: set<nat>, size: nat, m: nat, x: nat, ok: bool,
                  d1: Disk, r1: Node, free1: set<nat>, ex: Entry)
    requires FileOk(d0, r0, size, m) && x <= m && free1 <= free0
    requires Apart(multiset(free0), TreeOwned(d0, r0))
    requires x < m ==> ok && r1 == r0 && d1 == d0 && free1 == free0
    requires x == m && ok ==> ex.key == m && 1 <= ex.len && Mapped(d0, r0, free0, d1, r1, free1, ex)
    requires x == m && ok ==> Appended(d0, r0, d1, r1) && m * BLOCK_BYTES < POS_LIMIT
    requires x == m && !ok ==> r1 == r0 && OnlyTouched(d0, d1, multiset(free0))
    ensures var m1 := if ok && x == m then m + ex.len else m;
            && FileOk(d1, r1, size, m1) && Contents(d1, r1, size) == Contents(d0, r0, size)
            && (forall y: nat :: y < m ==> TreeLookup(d1, r1, y) == TreeLookup(d0, r0, y))
            && (ok && x == m ==> TreeLookup(d1, r1, x) == Some(ex.phys))
    ensures Moved(d0, TreeOwned(d0, r0), free0, d1, TreeOwned(d1, r1), free1, if ok then {} else free0 - free1)
    ensures Lean(d0, r0) ==> Lean(d1, r1)
  {
    hide FileOk, WfTree, WfList, Flat, Nodes, Contents, Lean, Appended;
    if x == m && ok {
      if Lean(d0, r0) {
        StaysLean(d0, r0, d1, r1, size, m);
      }
      MappedKeeps(d0, r0, free0, d1, r1, free1, ex, size, m);
      assert Mapped(d0, r0, free0, d1, r1, free1, ex);
      MappedMoves(d0, r0, free0, d1, r1, free1, ex);
      NewLookups(d0, r0, d1, r1, ex);
    } else if x == m {
      FileFrame(d0, d1, r0, size, m, multiset(free0));
      SameLookups(d0, d1, r0, size, m, multiset(free0));
    }
  }

  lemma MappedMoves(d0: Disk, r0: Node, free0: set<nat>, d1: Disk, r1: Node, free1: set<nat>, ex: Entry)
    requires Mapped(d0, r0, free0, d1, r1, free1, ex)
    ensures Moved(d0, TreeOwned(d0, r0), free0, d1, TreeOwned(d1, r1), free1, {})
  {
    hide WfTree, Flat, Nodes, IsUpdate;
    forall b | b in Nodes(d0, r0.depth, r0.entries) + multiset(free0 - free1)
      ensures b in TreeOwned(d0, r0) + multiset(free0)
    {
    }
  }

  lemma NewLookups(d0: Disk, r0: Node, d1: Disk, r1: Node, ex: Entry)
    requires IsUpdate(Flat(d0, r0.depth, r0.entries), Flat(d1, r1.depth, r1.entries), ex) && 1 <= ex.len
    ensures forall y: nat :: y < ex.key ==> TreeLookup(d1, r1, y) == TreeLookup(d0, r0, y)
    ensures TreeLookup(d1, r1, ex.key) == Some(ex.phys)
  {
    hide Flat;
  }

  lemma SameLookups(d0: Disk, d1: Disk, root: Node, size: nat, m: nat, t: multiset<nat>)
    requires OnlyTouched(d0, d1, t) && Apart(t, TreeOwned(d0, root))
    ensures forall y: nat :: TreeLookup(d1, root, y) == TreeLookup(d0, root, y)
    ensures TreeOwned(d1, root) == TreeOwned(d0, root)
  {
    hide Flat, Nodes;
    forall b
      ensures !(b in t && b in Nodes(d0, root.depth, root.entries))
    {
      assert b in Nodes(d0, root.depth, root.entries) ==> b in TreeOwned(d0, root);
    }
    SameTree(d0, d1, root, t);
  }

  function Smaller(a: nat, b: nat): nat {
    if a < b then a else b
  }

  lemma EmptyFile(disk: Disk)
    ensures FileOk(disk, EMPTY_TREE, 0, 0)
  {
    EmptyTree(disk);
  }

  lemma AppendSlice(s: seq<bv8>, a: seq<bv8>, b: seq<bv8>, i: nat, j: nat, k: nat)
    requires i <= j <= k <= |s| && a == s[i..j] && b == s[j..k]
    ensures a + b == s[i..k]
  {
  }

  /** What the file shows of a block is what the disk holds. */
  lemma BlockSlice(disk: Disk, root: Node, size: nat, m: nat, x: nat, off: nat, n: nat)
    requires FileOk(disk, root, size, m) && off + n <= BLOCK_BYTES && 0 < n && x * BLOCK_BYTES + off + n <= size
    ensures TreeLookup(disk, root, x).Some? && HasData(disk, TreeLookup(disk, root, x).value)
    ensures |Contents(disk, root, size)| == size
    ensures Contents(disk, root, size)[x * BLOCK_BYTES + off..x * BLOCK_BYTES + off + n] ==
            disk[TreeLookup(disk, root, x).value].bytes[off..off + n]
  {
    hide WfTree, TreeLookup;
    assert Stored(disk, root, x);
    forall i: nat | off <= i < off + n
      ensures Contents(disk, root, size)[x * BLOCK_BYTES + i] == disk[TreeLookup(disk, root, x).value].bytes[i]
    {
      assert (x * BLOCK_BYTES + i) / BLOCK_BYTES == x && (x * BLOCK_BYTES + i) % BLOCK_BYTES == i;
    }
  }
}
