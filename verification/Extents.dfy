/**
 Block mapping through extents (fs/ext4/extents.c): the path read from disk into scratch buffers, the
 insertion into the leaf, the split of a full leaf, the index entries pushed up the path, and the
 growth of the root, on an inode's root, the disk and the block allocator.
 Scratch memory and disk I/O are taken to succeed; the allocator may run out of blocks.
 */
module Extents {
  import opened Wrappers
  import opened Runs
  import opened FreeSpace
  import opened Balloc
  import opened ExtentTree
  import opened LeafInsert
  import opened TreeUpdate
  import opened TreePath
  import opened TreeInsert
  import opened TreeSpine
  import opened ExtentNode

  class Device {
    var blocks: Disk

    constructor (blocks: Disk)
      ensures this.blocks == blocks
    {
      this.blocks := blocks;
    }
  }

  /** The block numbers of a path (struct ext4_ext_path): 0 for the embedded root, then the block that
      the slot chosen one level up points to. */
  ghost predicate PathBlks(nodes: seq<Node>, l: nat, blks: seq<nat>) {
    && |blks| == |nodes| > 0 && blks[0] == 0
    && forall i :: 0 < i < |nodes| ==> PathBlkAt(nodes, l, blks, i)
  }

  ghost predicate PathBlkAt(nodes: seq<Node>, l: nat, blks: seq<nat>, i: nat)
    requires 0 < i < |nodes| == |blks|
  {
    nodes[i - 1].entries != [] && blks[i] == SlotAt(nodes, l, i - 1).phys && blks[i] != 0
  }

  /** What read_path has found out on the way down so far: every node is the picked child of the one
      before, blks are their blocks, and the last one is well formed below hi. */
  ghost predicate PathSoFar(disk: Disk, root: Node, l: nat, nodes: seq<Node>, blks: seq<nat>, hi: nat) {
    && |nodes| > 0 && nodes[0] == root && PathBlks(nodes, l, blks)
    && (forall i :: 0 <= i < |nodes| - 1 ==> Linked(disk, nodes, l, i))
    && Landed(disk, root.depth, |nodes| - 1, nodes[|nodes| - 1], hi)
  }

  ghost predicate Landed(disk: Disk, depth: nat, level: nat, n: Node, hi: nat) {
    n.depth + level == depth && WfList(disk, n.depth, n.entries, hi) && (n.depth > 0 ==> n.entries != [])
  }

  lemma SoFarDone(disk: Disk, root: Node, l: nat, nodes: seq<Node>, blks: seq<nat>, hi: nat)
    requires PathSoFar(disk, root, l, nodes, blks, hi) && |nodes| == root.depth + 1
    ensures PathTo(disk, root, l, nodes) && PathBlks(nodes, l, blks)
  {
  }

  lemma ExtendSoFar(disk: Disk, root: Node, l: nat, nodes: seq<Node>, blks: seq<nat>, hi: nat, e: Entry, n: Node,
      h: nat)
    requires PathSoFar(disk, root, l, nodes, blks, hi)
    requires var last := nodes[|nodes| - 1];
             last.depth > 0 && e == last.entries[Pick(last.entries, l)] && IsChild(disk, last.depth, e, n) &&
             WfList(disk, last.depth - 1, n.entries, h)
    ensures PathSoFar(disk, root, l, nodes + [n], blks + [e.phys], h)
    ensures Landed(disk, root.depth, |nodes|, n, h)
  {
    hide WfList, Pick;
    var k, nodes', blks' := |nodes| - 1, nodes + [n], blks + [e.phys];
    forall i | 0 <= i < |nodes'| - 1
      ensures Linked(disk, nodes', l, i)
    {
      assert nodes'[i] == nodes[i];
      if i < k {
        assert Linked(disk, nodes, l, i);
        assert nodes'[i + 1] == nodes[i + 1];
      }
    }
    ExtendBlks(nodes, l, blks, e.phys, n);
    assert nodes'[|nodes'| - 1] == n && nodes'[0] == root;
  }

  lemma ExtendBlks(nodes: seq<Node>, l: nat, blks: seq<nat>, blk: nat, n: Node)
    requires PathBlks(nodes, l, blks) && nodes[|nodes| - 1].entries != []
    requires blk == SlotAt(nodes, l, |nodes| - 1).phys && blk != 0
    ensures PathBlks(nodes + [n], l, blks + [blk])
  {
    hide Pick;
    var nodes', blks' := nodes + [n], blks + [blk];
    assert blks'[0] == blks[0] && |blks'| == |nodes'|;
    forall i | 0 < i < |nodes'|
      ensures PathBlkAt(nodes', l, blks', i)
    {
      assert nodes'[i - 1] == nodes[i - 1];
      if i < |nodes| {
        assert PathBlkAt(nodes, l, blks, i);
      }
    }
  }

  const EMPTY_TREE := Node(0, ROOT_SLOTS, [])

  lemma EmptyTree(disk: Disk)
    ensures WfTree(disk, EMPTY_TREE) && TreeOwned(disk, EMPTY_TREE) == multiset{}
    ensures forall l :: TreeLookup(disk, EMPTY_TREE, l) == None
  {
  }

  class ExtentFile {
    const root: NodeBuf
    const dev: Device
    const alloc: Allocator
    var inited: bool

    /** An inode whose i_block is all zero. */
    constructor (dev: Device, alloc: Allocator)
      requires alloc.Valid() && dev as object !in alloc.Repr()
      ensures Valid() && !inited && fresh(root) && fresh(root.slots)
      ensures this.dev == dev && this.alloc == alloc
    {
      this.dev, this.alloc, inited := dev, alloc, false;
      root := new NodeBuf.Embedded();
      new;
      EmptyTree(dev.blocks);
    }

    function Repr(): set<object> {
      {this, root, root.slots, dev} + alloc.Repr()
    }

    ghost predicate Shape()
      reads root
    {
      root.Valid() && root.slots.Length == ROOT_SLOTS && Apart1(root)
    }

    /** The node buffer shares no memory with the allocator or the device. */
    ghost predicate Apart1(b: NodeBuf) {
      && b as object !in alloc.Repr() && b.slots as object !in alloc.Repr()
      && b as object != dev && b.slots as object != dev && dev as object !in alloc.Repr()
    }

    /** The tree of the file; before the first write i_block holds no header and there is none. */
    function Tree(): Node
      requires Shape()
      reads this, root, root.slots
    {
      if inited then root.Value() else EMPTY_TREE
    }

    ghost predicate Valid()
      reads Repr()
    {
      && Shape() && alloc.Valid()
      && WfTree(dev.blocks, Tree())
      && Apart(multiset(alloc.Free()), TreeOwned(dev.blocks, Tree()))
    }

    /** The slot to follow: the last one with key at most l, slot 0 when there is none. */
    static method PickSlot(es: seq<Entry>, l: nat, ghost disk: Disk, ghost d: nat, ghost hi: nat) returns (c: nat)
      requires es != [] && WfList(disk, d, es, hi)
      ensures c == Pick(es, l)
    {
      c := 0;
      var i := 0;
      while i < |es|
        invariant 0 <= i <= |es|
        invariant i == 0 ==> c == 0
        invariant i > 0 ==> (c == i - 1 && es[c].key <= l)
      {
        if es[i].key <= l {
          c := i;
        } else {
          break;
        }
        i := i + 1;
      }
      if i > 0 {
        UpperBoundAt(disk, d, es, hi, l, i);
      } else {
        UpperBoundSplits(es, l);
        if UpperBound(es, l) > 1 {
          SortedKeys(disk, d, es, hi, 0, UpperBound(es, l) - 1);
        }
      }
    }

    /** ext4_extents_read_path: the nodes on the way to l, each a copy of its block, and their blocks. */
    method ReadPath(l: nat) returns (nodes: seq<Node>, blks: seq<nat>)
      requires Shape() && WfTree(dev.blocks, root.Value())
      ensures PathTo(dev.blocks, root.Value(), l, nodes) && PathBlks(nodes, l, blks)
    {
      nodes, blks := [root.Value()], [0];
      ghost var hi := LBLOCKS;
      assert PathSoFar(dev.blocks, root.Value(), l, nodes, blks, hi);
      hide WfList, PathTo, PathBlks, Linked, Pick;
      var d := 0;
      while d < root.depth
        invariant 0 <= d <= root.depth && |nodes| == d + 1
        invariant PathSoFar(dev.blocks, root.Value(), l, nodes, blks, hi)
      {
        var cur := nodes[d];
        var c := PickSlot(cur.entries, l, dev.blocks, cur.depth, hi);
        var e := cur.entries[c];
        ghost var h := NextKey(cur.entries[c + 1..], hi);
        SlotChild(dev.blocks, cur.depth, cur.entries, hi, c);
        var n := dev.blocks[e.phys].node;
        PickDown(dev.blocks, cur.depth, cur.entries, hi, l, n);
        ExtendSoFar(dev.blocks, root.Value(), l, nodes, blks, hi, e, n, h);
        nodes, blks, hi := nodes + [n], blks + [e.phys], h;
        d := d + 1;
      }
      SoFarDone(dev.blocks, root.Value(), l, nodes, blks, hi);
    }

    /** The memory of level i of the path: the inode's root, or a scratch buffer with a copy. */
    method BufferAt(n: Node, i: nat) returns (buf: NodeBuf)
      requires Shape() && |n.entries| <= n.max <= BLOCK_SLOTS
      requires i == 0 ==> root.Value() == n
      ensures i == 0 ==> buf == root
      ensures i > 0 ==> fresh(buf) && fresh(buf.slots)
      ensures buf.Valid() && Apart1(buf) && buf.Value() == n
    {
      if i == 0 {
        return root;
      }
      buf := new NodeBuf.Load(n);
    }

    /** ext4_extents_write_path_node: the embedded root needs no write. */
    method WriteNode(buf: NodeBuf, blk: nat)
      requires buf.Valid()
      modifies dev
      ensures dev.blocks == if blk == 0 then old(dev.blocks) else old(dev.blocks)[blk := TreeBlock(buf.Value())]
    {
      if blk != 0 {
        dev.blocks := dev.blocks[blk := TreeBlock(buf.Value())];
      }
    }

    /** ext4_extents_alloc_new_extent: a run from the allocator becomes the extent to insert.  No run is
        long enough for the length limit to cut it, nor reaches past the volume. */
    method AllocExtent(l: nat, goal: nat, hint: nat) returns (ok: bool, ex: Entry)
      requires alloc.Valid()
      modifies alloc.Repr()
      ensures alloc.Valid()
      ensures !ok ==> alloc.Avail() == {} && alloc.Free() == old(alloc.Free())
      ensures ok ==>
        && ex.key == l && 1 <= ex.len <= RunGoal(goal) && 1 <= ex.phys
        && alloc.Allocated(ex.phys, ex.len)
        && NextFit(alloc.geo, old(alloc.maps), old(alloc.goalBit[..]), old(alloc.goalGroup), goal, hint,
                   ex.phys, ex.len)
    {
      hide AvailSet, FreeSet, NextFit;
      var blk, len := alloc.NewBlocksInGroup(goal, hint);
      if blk == 0 {
        return false, Entry(l, 0, 0);
      }
      return true, Entry(l, len, blk);
    }

    /** The insertion under way: what the disk, the root, the path and the free blocks were before. */
    ghost predicate Working(t: Task)
      reads alloc.Repr()
    {
      && alloc.Valid() && alloc.Free() <= t.free0
      && Before(t.d0, t.root, t.nodes, t.ex, t.free0)
    }

    /** ext4_extents_insert_at_leaf */
    method InsertAtLeaf(leaf: NodeBuf, blk: nat, ex: Entry, ghost t: Task) returns (ok: bool)
      requires Working(t) && t.ex == ex && dev.blocks == t.d0
      requires leaf.Valid() && Apart1(leaf) && |t.nodes| == t.root.depth + 1 && leaf.Value() == t.nodes[t.root.depth]
      requires PathBlk(t, t.root.depth, blk)
      modifies leaf`count, leaf.slots, dev
      ensures leaf.Valid()
      ensures ok ==> Settled(t.d0, t.root, t.nodes, t.root.depth, t.ex, Run(t.ex.phys, t.ex.len), dev.blocks,
          leaf.Value())
      ensures !ok ==>
        && InsertExtent(t.nodes[t.root.depth].entries, t.nodes[t.root.depth].max, t.ex) == None
        && leaf.Value() == t.nodes[t.root.depth] && dev.blocks == t.d0
    {
      hide InsertExtent, Settled, Before, PathBlk;
      LevelShape(t.d0, t.root, t.nodes, t.root.depth, t.ex, t.free0);
      ok := leaf.Insert(ex);
      if ok {
        WriteNode(leaf, blk);
        LeafStaysDone(t, blk, leaf.Value(), dev.blocks);
      }
    }

    /** The allocator has handed out exactly the blocks in s since the task began. */
    ghost predicate Taken(t: Task, s: multiset<nat>)
      reads alloc.Repr()
    {
      alloc.Valid() && alloc.Free() <= t.free0 && s == multiset(t.free0 - alloc.Free())
    }

    /** One tree block more for the task. */
    method TakeBlock(ghost t: Task, ghost s: multiset<nat>) returns (blk: nat)
      requires Taken(t, s)
      modifies alloc.Repr()
      ensures alloc.Valid()
      ensures blk == 0 ==> alloc.Avail() == {} && Taken(t, s)
      ensures alloc.Free() <= old(alloc.Free())
      ensures blk != 0 ==> Taken(t, Plus(s, blk)) && blk in t.free0 && Plus(s, blk) <= multiset(t.free0)
    {
      ghost var before := alloc.Free();
      blk := alloc.NewBlock();
      if blk != 0 {
        OneMore(t.free0, before, alloc.Free(), blk);
      }
    }

    /** A full node is cut in memory around the new slot. */
    method CutBuffer(buf: NodeBuf, e: Entry) returns (rbuf: NodeBuf)
      requires buf.Valid() && 0 < buf.count == buf.max <= BLOCK_SLOTS
      modifies buf`count, buf.slots
      ensures fresh(rbuf) && fresh(rbuf.slots) && rbuf.Valid() && buf.Valid()
      ensures rbuf.depth == buf.depth && rbuf.max == BLOCK_SLOTS
      ensures (buf.Used(), rbuf.Used()) == SplitAt(old(buf.Used()), UpperBound(old(buf.Used()), e.key), e)
    {
      var pos := buf.InsertPos(e.key);
      rbuf := new NodeBuf(buf.depth);
      buf.Split(pos, e, rbuf);
    }

    /** Cutting a full node and finding a block for its right half. */
    method CutAndTake(buf: NodeBuf, e: Entry, ghost t: Task, ghost s: multiset<nat>)
      returns (rbuf: NodeBuf, rblk: nat, ghost left: Node, ghost right: Node)
      requires Taken(t, s) && Apart1(buf)
      requires buf.Valid() && 0 < buf.count == buf.max <= BLOCK_SLOTS
      modifies buf`count, buf.slots, alloc.Repr()
      ensures buf.Valid() && rbuf.Valid() && Apart1(rbuf)
      ensures alloc.Valid() && alloc.Free() <= old(alloc.Free())
      ensures buf.Value() == left && rbuf.Value() == right
      ensures left.depth == right.depth == buf.depth && left.max == buf.max && right.max == BLOCK_SLOTS
      ensures (left.entries, right.entries) == SplitAt(old(buf.Used()), UpperBound(old(buf.Used()), e.key), e)
      ensures rblk == 0 ==> alloc.Avail() == {}
      ensures rblk != 0 ==> Taken(t, Plus(s, rblk)) && rblk in t.free0 && Plus(s, rblk) <= multiset(t.free0)
    {
      hide Taken, UpperBound, SplitAt, Plus;
      TakenBounds(t, s);
      rbuf := CutBuffer(buf, e);
      left, right := buf.Value(), rbuf.Value();
      rblk := TakeBlock(t, s);
    }

    method WriteHalves(buf: NodeBuf, blk: nat, rbuf: NodeBuf, rblk: nat)
      requires buf.Valid() && rbuf.Valid()
      modifies dev
      ensures dev.blocks == (if blk == 0 then old(dev.blocks) else old(dev.blocks)[blk := TreeBlock(buf.Value())])
                            [rblk := TreeBlock(rbuf.Value())]
    {
      WriteNode(buf, blk);
      dev.blocks := dev.blocks[rblk := TreeBlock(rbuf.Value())];
    }

    /** ext4_extents_split_leaf: the path's leaf is full and takes its share of the slots; the rest
        goes to a new block. */
    method SplitLeaf(leaf: NodeBuf, blk: nat, ex: Entry, ghost t: Task)
      returns (ok: bool, rblk: nat, key: nat, ghost right: Node)
      requires Before(t.d0, t.root, t.nodes, t.ex, t.free0) && t.ex == ex && dev.blocks == t.d0
      requires Taken(t, Run(ex.phys, ex.len))
      requires leaf.Valid() && Apart1(leaf) && |t.nodes| == t.root.depth + 1 && leaf.Value() == t.nodes[t.root.depth]
      requires InsertExtent(leaf.Used(), leaf.max, ex) == None && PathBlk(t, t.root.depth, blk)
      modifies leaf`count, leaf.slots, dev, alloc.Repr()
      ensures leaf.Valid() && leaf.depth == old(leaf.depth) && leaf.max == old(leaf.max)
      ensures alloc.Valid() && alloc.Free() <= old(alloc.Free())
      ensures !ok ==> alloc.Avail() == {}
      ensures Tail(t) ==> leaf.Value() == old(leaf.Value()) && Kept(t, dev.blocks)
      ensures ok && Tail(t) ==>
        Growing(t, t.root.depth, dev.blocks, Pending(Run(ex.phys, ex.len), leaf.Value(), right), key)
      ensures ok ==>
        && Taken(t, Plus(Run(ex.phys, ex.len), rblk))
        && Cut(t.d0, t.root, t.nodes, t.root.depth, ex, Run(ex.phys, ex.len), dev.blocks, leaf.Value(), right, rblk)
        && right.entries != [] && key == right.entries[0].key
    {
      hide InsertExtent, Cut, UpperBound, SplitAt, Before, Taken, PathBlk, Plus, Tail, Kept, Growing;
      LeafFull(t, leaf.Value());
      var rbuf;
      ghost var left;
      TailSplit(t, t.root.depth, ex);
      KeptAtFirst(t);
      rbuf, rblk, left, right := CutAndTake(leaf, ex, t, Run(ex.phys, ex.len));
      if rblk == 0 {
        return false, 0, 0, right;
      }
      WriteHalves(leaf, blk, rbuf, rblk);
      LeafCutDone(t, blk, left, right, rblk, dev.blocks);
      KeptWrite(t, t.root.depth, blk, t.d0, left, right, rblk);
      LeafChain(t, left, right, dev.blocks);
      return true, rblk, rbuf.slots[0].key, right;
    }

    /** The first slot with a greater key, searched from the left. */
    method FirstAbove(buf: NodeBuf, k: nat, ghost disk: Disk, ghost d: nat, ghost hi: nat) returns (p: nat)
      requires buf.Valid() && WfList(disk, d, buf.Used(), hi)
      ensures p == UpperBound(buf.Used(), k)
    {
      ghost var es := buf.Used();
      p := buf.count;
      var j := 0;
      while j < buf.count
        invariant 0 <= j <= buf.count && p == buf.count
        invariant forall i :: 0 <= i < j ==> es[i].key <= k
      {
        if buf.slots[j].key > k {
          p := j;
          break;
        }
        j := j + 1;
      }
      FirstIsUpperBound(disk, d, es, hi, k, p);
    }

    /** ext4_extents_add_index at a level with room: one more slot there, written back. */
    method AddSlot(buf: NodeBuf, blk: nat, rblk: nat, key: nat, ghost t: Task, ghost level: nat,
                   ghost extra: multiset<nat>, ghost left: Node, ghost right: Node)
      requires Before(t.d0, t.root, t.nodes, t.ex, t.free0) && level < t.root.depth
      requires Plus(extra, rblk) <= multiset(t.free0)
      requires |t.nodes| == t.root.depth + 1
      requires Cut(t.d0, t.root, t.nodes, level + 1, t.ex, extra, dev.blocks, left, right, rblk)
      requires right.entries != [] && key == right.entries[0].key
      requires buf.Valid() && Apart1(buf) && buf.Value() == t.nodes[level] && buf.count < buf.max
      requires PathBlk(t, level, blk)
      modifies buf`count, buf.slots, dev
      ensures buf.Valid()
      ensures Settled(t.d0, t.root, t.nodes, level, t.ex, Plus(extra, rblk), dev.blocks, buf.Value())
      ensures Growing(t, level + 1, old(dev.blocks), Pending(extra, left, right), key) ==>
        EdgeKept(t, level, dev.blocks, buf.Value())
    {
      hide Before, Cut, Settled, WfList, UpperBound, PathBlk, Plus, Growing, EdgeKept;
      IndexSorted(t, level);
      var pos := FirstAbove(buf, key, t.d0, t.root.depth - level, HiAt(t.nodes, t.ex.key, level));
      buf.ShiftIn(pos, Entry(key, 0, rblk));
      IndexStaysDone(t, level, blk, extra, dev.blocks, left, right, rblk, buf.Value());
      EdgeAdded(t, level, blk, extra, dev.blocks, left, right, rblk, buf.Value());
      WriteNode(buf, blk);
    }

    /** ext4_extents_add_index at a full level: the level is cut in its turn. */
    method CutIndex(buf: NodeBuf, blk: nat, rblk: nat, key: nat, ghost t: Task, ghost level: nat,
                    ghost extra: multiset<nat>, ghost left: Node, ghost right: Node)
      returns (ok: bool, nblk: nat, nkey: nat, ghost left2: Node, ghost right2: Node)
      requires Before(t.d0, t.root, t.nodes, t.ex, t.free0) && level < t.root.depth
      requires Taken(t, Plus(extra, rblk))
      requires |t.nodes| == t.root.depth + 1
      requires Cut(t.d0, t.root, t.nodes, level + 1, t.ex, extra, dev.blocks, left, right, rblk)
      requires right.entries != [] && key == right.entries[0].key
      requires buf.Valid() && Apart1(buf) && buf.Value() == t.nodes[level] && 0 < buf.count == buf.max <= BLOCK_SLOTS
      requires PathBlk(t, level, blk)
      modifies buf`count, buf.slots, dev, alloc.Repr()
      ensures buf.Valid() && buf.Value() == left2
      ensures alloc.Valid() && alloc.Free() <= old(alloc.Free())
      ensures !ok ==> alloc.Avail() == {}
      ensures Growing(t, level + 1, old(dev.blocks), Pending(extra, left, right), key) ==>
        && buf.Value() == old(buf.Value()) && Kept(t, dev.blocks)
        && (ok ==> Growing(t, level, dev.blocks, Pending(Plus(extra, rblk), left2, right2), nkey))
      ensures ok ==>
        && Taken(t, Plus(Plus(extra, rblk), nblk))
        && Cut(t.d0, t.root, t.nodes, level, t.ex, Plus(extra, rblk), dev.blocks, left2, right2, nblk)
        && right2.entries != [] && nkey == right2.entries[0].key
    {
      hide Before, Cut, UpperBound, SplitAt, PathBlk, Taken, Plus, Tail, Kept, Growing;
      LevelShape(t.d0, t.root, t.nodes, level, t.ex, t.free0);
      TailSplit(t, level, Entry(key, 0, rblk));
      GrowingParts(t, level + 1, dev.blocks, Pending(extra, left, right), key);
      var rbuf;
      rbuf, nblk, left2, right2 := CutAndTake(buf, Entry(key, 0, rblk), t, Plus(extra, rblk));
      if nblk == 0 {
        return false, 0, 0, left2, right2;
      }
      ghost var d1 := dev.blocks;
      WriteHalves(buf, blk, rbuf, nblk);
      IndexCutDone(t, level, blk, extra, d1, left, right, rblk, nblk, left2, right2, dev.blocks);
      KeptWrite(t, level, blk, d1, left2, right2, nblk);
      ChainCut(t, level, blk, extra, d1, left, right, rblk, key, nblk, left2, right2);
      return true, nblk, rbuf.slots[0].key, left2, right2;
    }

    lemma TakenExactly(t: Task, s: multiset<nat>)
      requires Taken(t, s)
      ensures alloc.Valid() && alloc.Free() <= t.free0 && s == multiset(t.free0 - alloc.Free())
    {
    }

    lemma TakenBounds(t: Task, s: multiset<nat>)
      requires Taken(t, s)
      ensures alloc.Valid() && s <= multiset(t.free0)
    {
    }

    /** The path, its blocks and the task belong together. */
    ghost predicate OnTask(t: Task, blks: seq<nat>) {
      && Before(t.d0, t.root, t.nodes, t.ex, t.free0)
      && |t.nodes| == t.root.depth + 1 && PathBlks(t.nodes, t.ex.key, blks)
    }

    /** The body of the loop of ext4_extents_add_index: level n takes the entry for the right half, and
        is cut in its turn when it is full. */
    method AddAtLevel(nodes: seq<Node>, blks: seq<nat>, n: nat, rblk: nat, key: nat, ghost t: Task, ghost p: Pending)
      returns (ok: bool, done: bool, rblk': nat, key': nat, ghost p': Pending, ghost now: Node)
      requires OnTask(t, blks) && t.nodes == nodes && n < t.root.depth
      requires Taken(t, Plus(p.extra, rblk)) && Shape() && root.Value() == t.root
      requires CutAt(t, n + 1, dev.blocks, p, rblk, key)
      modifies root, root.slots, dev, alloc.Repr()
      ensures Shape() && root.Value() == if n == 0 then now else t.root
      ensures alloc.Valid() && alloc.Free() <= old(alloc.Free())
      ensures !ok ==> alloc.Avail() == {}
      ensures ok && done ==>
        && Taken(t, Plus(p.extra, rblk))
        && Settled(t.d0, t.root, t.nodes, n, t.ex, Plus(p.extra, rblk), dev.blocks, now)
      ensures ok && !done ==>
        && Taken(t, Plus(p'.extra, rblk')) && now == p'.left
        && CutAt(t, n, dev.blocks, p', rblk', key')
      ensures Growing(t, n + 1, old(dev.blocks), p, key) ==>
        if ok && done then EdgeKept(t, n, dev.blocks, now)
        else root.Value() == t.root && Kept(t, dev.blocks) && (ok ==> Growing(t, n, dev.blocks, p', key'))
    {
      hide Before, Cut, Settled, Taken, PathBlks, PathBlk, Plus, SlotAt, Tail, Kept, Growing, EdgeKept;
      ghost var all := Plus(p.extra, rblk);
      BlkAt(t, blks, n);
      LevelShape(t.d0, t.root, t.nodes, n, t.ex, t.free0);
      TakenBounds(t, all);
      var buf := BufferAt(nodes[n], n);
      rblk', key', p', now := rblk, key, p, nodes[n];
      if buf.count < buf.max {
        AddSlot(buf, blks[n], rblk, key, t, n, p.extra, p.left, p.right);
        ok, done, now := true, true, buf.Value();
      } else {
        ghost var right2;
        ok, rblk', key', now, right2 := CutIndex(buf, blks[n], rblk, key, t, n, p.extra, p.left, p.right);
        p' := Pending(all, now, right2);
        done := false;
      }
    }

    /** ext4_extents_add_index: the index entry for the right half goes up the path, cutting every full
        node on its way; grow asks for a new root when the old one was cut as well. */
    method AddIndex(nodes: seq<Node>, blks: seq<nat>, rblk0: nat, key0: nat, ghost t: Task, ghost p0: Pending)
      returns (ok: bool, grow: bool, rblk: nat, key: nat, ghost level: nat, ghost p: Pending, ghost now: Node)
      requires OnTask(t, blks) && t.nodes == nodes
      requires Taken(t, Plus(p0.extra, rblk0)) && Shape()
      requires CutAt(t, t.root.depth, dev.blocks, p0, rblk0, key0)
      requires root.Value() == if t.root.depth == 0 then p0.left else t.root
      modifies root, root.slots, dev, alloc.Repr()
      ensures Shape()
      ensures alloc.Valid() && alloc.Free() <= old(alloc.Free())
      ensures !ok ==> alloc.Avail() == {}
      ensures ok && !grow ==>
        && level < t.root.depth && Taken(t, p.extra) && root.Value() == (if level == 0 then now else t.root)
        && Settled(t.d0, t.root, t.nodes, level, t.ex, p.extra, dev.blocks, now)
      ensures ok && grow ==>
        Taken(t, Plus(p.extra, rblk)) && CutAt(t, 0, dev.blocks, p, rblk, key) && root.Value() == p.left
      ensures Growing(t, t.root.depth, old(dev.blocks), p0, key0) && old(root.Value()) == t.root ==>
        if ok && !grow then EdgeKept(t, level, dev.blocks, now)
        else root.Value() == t.root && Kept(t, dev.blocks) && (ok ==> Growing(t, 0, dev.blocks, p, key))
    {
      hide CutAt, Settled, Taken, Before, PathBlks, Plus, Tail, Kept, Growing, EdgeKept;
      TakenBounds(t, Plus(p0.extra, rblk0));
      GrowingParts(t, t.root.depth, dev.blocks, p0, key0);
      ghost var tail := Growing(t, t.root.depth, dev.blocks, p0, key0) && root.Value() == t.root;
      rblk, key, p, now := rblk0, key0, p0, root.Value();
      var n := |nodes| - 1;
      ok, grow, level := true, true, n;
      while n > 0 && ok && grow
        invariant 0 <= n < |nodes| && level == n
        invariant Shape() && alloc.Valid() && alloc.Free() <= old(alloc.Free())
        invariant !ok ==> alloc.Avail() == {}
        invariant ok && !grow ==>
          && level < t.root.depth && Taken(t, p.extra) && root.Value() == (if level == 0 then now else t.root)
          && Settled(t.d0, t.root, t.nodes, level, t.ex, p.extra, dev.blocks, now)
        invariant ok && grow ==>
          && root.Value() == (if n == 0 then p.left else t.root)
          && Taken(t, Plus(p.extra, rblk)) && CutAt(t, n, dev.blocks, p, rblk, key)
        invariant tail ==>
          if ok && !grow then EdgeKept(t, level, dev.blocks, now)
          else root.Value() == t.root && Kept(t, dev.blocks) && (ok ==> Growing(t, n, dev.blocks, p, key))
      {
        n := n - 1;
        var done;
        ghost var p';
        ghost var all := Plus(p.extra, rblk);
        ok, done, rblk, key, p', now := AddAtLevel(nodes, blks, n, rblk, key, t, p);
        p := if ok && !done then p' else Pending(all, p.left, p.right);
        level, grow := n, !done;
      }
    }

    /** The root, one level higher, with two index entries. */
    method RootOfTwo(left: Entry, right: Entry)
      requires Shape()
      modifies root, root.slots
      ensures Shape() && root.Value() == Node(old(root.depth) + 1, ROOT_SLOTS, [left, right])
    {
      root.InitNode(root.depth + 1);
      root.count := 2;
      root.slots[0], root.slots[1] := left, right;
      assert root.Used() == [left, right];
    }

    /** ext4_extents_grow_indepth: the left half of the root moves to a block of its own and the root
        becomes an index of the two halves. */
    method GrowInDepth(rblk: nat, key: nat, ghost t: Task, ghost p: Pending) returns (ok: bool)
      requires Before(t.d0, t.root, t.nodes, t.ex, t.free0) && Taken(t, Plus(p.extra, rblk)) && Shape()
      requires CutAt(t, 0, dev.blocks, p, rblk, key) && root.Value() == p.left
      requires RunSet(t.ex.phys, t.ex.len) <= t.free0 - alloc.Free()
      modifies root, root.slots, dev, alloc.Repr()
      ensures Shape() && alloc.Valid() && alloc.Free() <= old(alloc.Free())
      ensures !ok ==> alloc.Avail() == {} || t.root.depth == MAX_DEPTH
      ensures !ok ==> root.Value() == old(root.Value()) && dev.blocks == old(dev.blocks)
      ensures ok ==> Mapped(t.d0, t.root, t.free0, dev.blocks, root.Value(), alloc.Free(), t.ex)
      ensures ok && Growing(t, 0, old(dev.blocks), p, key) ==>
        Appended(t.d0, t.root, dev.blocks, root.Value())
    {
      hide Before, Mapped, Cut, Plus, Taken, Growing, Appended;
      TakenBounds(t, Plus(p.extra, rblk));
      RootShape(t, dev.blocks, p, rblk, key);
      if root.depth >= MAX_DEPTH {
        return false;
      }
      var first := root.slots[0].key;
      ghost var free1 := alloc.Free();
      var oblk := TakeBlock(t, Plus(p.extra, rblk));
      if oblk == 0 {
        return false;
      }
      var tmp := new NodeBuf.Load(Node(root.depth, BLOCK_SLOTS, root.Used()));
      var d1 := dev.blocks;
      dev.blocks := dev.blocks[oblk := TreeBlock(tmp.Value())];
      RootOfTwo(Entry(first, 0, oblk), Entry(key, 0, rblk));
      GrowWhole(t, p, rblk, oblk, d1, free1, alloc.Free(), key);
      ok := true;
    }

    /** The leaf is full: split it, tell its ancestors, and grow the tree if the root had no room. */
    method InsertBySplitting(buf: NodeBuf, nodes: seq<Node>, blks: seq<nat>, ex: Entry,
        ghost t: Task) returns (ok: bool)
      requires OnTask(t, blks) && t.nodes == nodes && t.ex == ex && dev.blocks == t.d0
      requires Taken(t, Run(ex.phys, ex.len)) && Shape() && root.Value() == t.root
      requires RunSet(ex.phys, ex.len) <= t.free0 - alloc.Free()
      requires InsertExtent(nodes[t.root.depth].entries, nodes[t.root.depth].max, ex) == None
      requires buf.Valid() && Apart1(buf) && buf.Value() == nodes[t.root.depth]
      requires if t.root.depth == 0 then buf == root else buf != root && buf.slots != root.slots
      modifies root, root.slots, buf, buf.slots, dev, alloc.Repr()
      ensures Shape() && alloc.Valid() && alloc.Free() <= old(alloc.Free())
      ensures !ok ==> alloc.Avail() == {} || t.root.depth == MAX_DEPTH
      ensures !ok && Tail(t) ==> root.Value() == t.root && Kept(t, dev.blocks)
      ensures ok ==> Mapped(t.d0, t.root, t.free0, dev.blocks, root.Value(), alloc.Free(), ex)
      ensures ok && Tail(t) ==> Appended(t.d0, t.root, dev.blocks, root.Value())
    {
      hide Before, Mapped, Cut, Settled, InsertExtent, Taken, PathBlks, PathBlk, Tail, Kept, Growing, EdgeKept,
          Appended;
      var D := |nodes| - 1;
      var rblk, key;
      ghost var right;
      BlkAt(t, blks, D);
      ok, rblk, key, right := SplitLeaf(buf, blks[D], ex, t);
      if !ok {
        return false;
      }
      ghost var p := Pending(Run(ex.phys, ex.len), buf.Value(), right);
      var grow;
      ghost var level, now;
      ok, grow, rblk, key, level, p, now := AddIndex(nodes, blks, rblk, key, t, p);
      if !ok {
        return false;
      }
      if grow {
        ok := GrowInDepth(rblk, key, t, p);
      } else {
        TakenExactly(t, p.extra);
        SettledWhole(t, level, p.extra, dev.blocks, now, alloc.Free());
      }
    }

    /** ext4_extents_insert_mapped_block */
    method InsertMapped(nodes: seq<Node>, blks: seq<nat>, l: nat, goal: nat, hint: nat) returns (ok: bool, ex: Entry)
      requires Shape() && alloc.Valid() && WfTree(dev.blocks, root.Value())
      requires Apart(multiset(alloc.Free()), TreeOwned(dev.blocks, root.Value()))
      requires PathTo(dev.blocks, root.Value(), l, nodes) && PathBlks(nodes, l, blks)
      requires Room(dev.blocks, root.Value(), alloc.Free(), l, goal)
      modifies root, root.slots, dev, alloc.Repr()
      ensures Shape() && alloc.Valid() && alloc.Free() <= old(alloc.Free())
      ensures !ok ==> alloc.Avail() == {} || old(root.depth) == MAX_DEPTH
      ensures !ok && KeysUpTo(nodes, l) ==>
        root.Value() == old(root.Value()) && OnlyTouched(old(dev.blocks), dev.blocks, multiset(old(alloc.Free())))
      ensures ok ==>
        && ex.key == l && 1 <= ex.len <= RunGoal(goal) && 1 <= ex.phys
        && NextFit(alloc.geo, old(alloc.maps), old(alloc.goalBit[..]), old(alloc.goalGroup), goal, hint,
                   ex.phys, ex.len)
        && Mapped(old(dev.blocks), old(root.Value()), old(alloc.Free()), dev.blocks, root.Value(), alloc.Free(), ex)
      ensures ok && KeysUpTo(nodes, l) ==> Appended(old(dev.blocks), old(root.Value()), dev.blocks, root.Value())
    {
      hide PathTo, WfTree, Mapped, Before, Settled, InsertExtent, Room, KeysUpTo, Appended, EdgeKept, NextFit;
      ghost var d0, root0, free0 := dev.blocks, root.Value(), alloc.Free();
      ok, ex := AllocExtent(l, goal, hint);
      if !ok {
        return;
      }
      ghost var t := Task(d0, root0, nodes, ex, free0);
      TaskBegins(t, goal);
      RunIsTaken(free0, alloc.Free(), ex);
      LevelShape(d0, root0, nodes, root0.depth, ex, free0);
      BlkAt(t, blks, root0.depth);
      var D := root.depth;
      var buf := BufferAt(nodes[D], D);
      ok := InsertAtLeaf(buf, blks[D], ex, t);
      if ok {
        LeafEdge(t, dev.blocks, buf.Value());
        SettledWhole(t, D, Run(ex.phys, ex.len), dev.blocks, buf.Value(), alloc.Free());
      } else {
        ok := InsertBySplitting(buf, nodes, blks, ex, t);
      }
    }

    /** ext4_extents_lookup_mapped on the leaf that read_path ends at. */
    method LookupMapped(l: nat, nodes: seq<Node>) returns (found: bool, out: nat)
      requires Shape() && WfTree(dev.blocks, root.Value()) && PathTo(dev.blocks, root.Value(), l, nodes)
      ensures TreeLookup(dev.blocks, root.Value(), l) == if found then Some(out) else None
      ensures found ==> out != 0
      ensures !found ==> out == 0
    {
      hide WfTree, PathTo, WfList, Lookup, Flat;
      LeafOfPath(dev.blocks, root.Value(), l, nodes);
      var leaf := BufferAt(nodes[root.depth], root.depth);
      var idx := leaf.Find(l, dev.blocks, HiAt(nodes, l, root.depth));
      if idx < 0 {
        return false, 0;
      }
      var e := leaf.slots[idx];
      SlotPositive(dev.blocks, leaf.Used(), HiAt(nodes, l, root.depth), idx);
      return true, e.phys + (l - e.key);
    }

    /** ext4_extents_get_block: the block mapped to l, or, with create, a new run that starts there.  The
        result 0 means unmapped. */
    method GetBlock(l: nat, create: bool, goal: nat, hint: nat) returns (ok: bool, out: nat, isNew: bool,
        ghost ex: Entry)
      requires Valid()
      requires create && TreeLookup(dev.blocks, Tree(), l) == None ==>
        Room(dev.blocks, Tree(), alloc.Free(), l, goal)
      modifies this`inited, root, root.slots, dev, alloc.Repr()
      ensures Shape() && alloc.Valid()
      ensures match old(TreeLookup(dev.blocks, Tree(), l))
              case Some(p) =>
                ok && out == p && out != 0 && !isNew && Tree() == old(Tree()) && dev.blocks == old(dev.blocks) &&
                alloc.Free() == old(alloc.Free())
              case None =>
                if !create then
                  ok && out == 0 && !isNew && Tree() == old(Tree()) && dev.blocks == old(dev.blocks) &&
                  alloc.Free() == old(alloc.Free())
                else if ok then
                  && isNew && out == ex.phys && out != 0
                  && ex.key == l && 1 <= ex.len <= RunGoal(goal)
                  && NextFit(alloc.geo, old(alloc.maps), old(alloc.goalBit[..]), old(alloc.goalGroup),
                             goal, hint, ex.phys, ex.len)
                  && Mapped(old(dev.blocks), old(Tree()), old(alloc.Free()), dev.blocks, Tree(), alloc.Free(), ex)
                else alloc.Avail() == {} || old(Tree()).depth == MAX_DEPTH
      ensures alloc.Free() <= old(alloc.Free()) && (!create ==> inited == old(inited))
      ensures ok ==> Valid()
      ensures ok && isNew && old(AtEnd(dev.blocks, Tree(), l)) ==>
        Appended(old(dev.blocks), old(Tree()), dev.blocks, Tree())
      ensures !ok && old(AtEnd(dev.blocks, Tree(), l)) ==>
        Valid() && Tree() == old(Tree()) && OnlyTouched(old(dev.blocks), dev.blocks, multiset(old(alloc.Free())))
    {
      hide WfTree, PathTo, Mapped, Room, Apart, PathBlks, TreeLookup, TreeOwned, OnlyTouched, KeysUpTo, AtEnd, Appended,
          NextFit;
      ex := Entry(l, 0, 0);
      if !inited {
        EmptyLookup(dev.blocks, l);
        if !create {
          return true, 0, false, ex;
        }
        root.InitNode(0);
        inited := true;
      }
      var nodes, blks := ReadPath(l);
      var found;
      found, out := LookupMapped(l, nodes);
      if found {
        return true, out, false, ex;
      }
      if !create {
        return true, 0, false, ex;
      }
      var e;
      ok, e := InsertMapped(nodes, blks, l, goal, hint);
      ex := e;
      if AtEnd(old(dev.blocks), old(Tree()), l) {
        AtEndPath(old(dev.blocks), old(Tree()), l, nodes);
      }
      if ok {
        MappedValid(old(dev.blocks), old(Tree()), old(alloc.Free()), dev.blocks, Tree(), alloc.Free(), ex);
      } else if AtEnd(old(dev.blocks), old(Tree()), l) {
        StillValid(old(dev.blocks), old(alloc.Free()), dev.blocks, alloc.Free(), old(Tree()));
      }
      return ok, e.phys, true, ex;
    }

    /** ext4_extents_map_blocks on a mapped block: the longest run from there, up to max, that lies in
        the same extent. */
    method MapBlocks(l: nat, max: nat) returns (out: nat, len: nat)
      requires Valid() && 0 < max
      requires TreeLookup(dev.blocks, Tree(), l).Some?
      ensures 1 <= len <= max && out != 0
      ensures forall x :: l <= x < l + len ==> TreeLookup(dev.blocks, Tree(), x) == Some(out + (x - l))
      ensures exists e :: e in Flat(dev.blocks, Tree().depth, Tree().entries) && Covers(e, l) &&
                          out == Target(e, l) && len == if e.key + e.len - l < max then e.key + e.len - l else max
    {
      hide WfTree, PathTo, WfList, Lookup, Flat, PathBlks;
      if !inited {
        EmptyLookup(dev.blocks, l);
      }
      var nodes, blks := ReadPath(l);
      LeafOfPath(dev.blocks, root.Value(), l, nodes);
      ghost var hi := HiAt(nodes, l, root.depth);
      var leaf := BufferAt(nodes[root.depth], root.depth);
      var idx := leaf.Find(l, dev.blocks, hi);
      var e := leaf.slots[idx];
      SlotPositive(dev.blocks, leaf.Used(), hi, idx);
      var off := l - e.key;
      len := e.len - off;
      if len > max {
        len := max;
      }
      out := e.phys + off;
      ExtentInTree(dev.blocks, root.Value(), l, nodes, e);
      forall x | l <= x < l + len
        ensures TreeLookup(dev.blocks, Tree(), x) == Some(out + (x - l))
      {
        LookupIndex(dev.blocks, leaf.Used(), hi, idx, x);
        LeafInTree(dev.blocks, root.Value(), l, nodes, x);
      }
    }
  }

  /** No run is longer than the goal, nor than a group without its bit 0. */
  function RunGoal(goal: nat): nat {
    if goal == 0 then 1 else if goal > INIT_MAX_LEN then INIT_MAX_LEN else goal
  }

  ghost predicate HasRun(free: set<nat>, n: nat) {
    exists p: nat :: RunSet(p, n) <= free
  }

  /** The n blocks from l on are in range and unmapped. */
  ghost predicate Vacant(disk: Disk, root: Node, l: nat, n: nat) {
    l + n <= LBLOCKS && forall x :: l <= x < l + n ==> TreeLookup(disk, root, x) == None
  }

  /** What a caller of create must see to: whatever run the free blocks allow for, up to the goal, the
      blocks it would cover are unmapped and in range, and an index root has no key above l. */
  ghost predicate Room(disk: Disk, root: Node, free: set<nat>, l: nat, goal: nat) {
    && (forall n: nat :: 1 <= n <= RunGoal(goal) && HasRun(free, n) ==> Vacant(disk, root, l, n))
    && (0 < root.depth ==> root.entries != [] && root.entries[0].key <= l)
  }

  /** One block more. */
  function Plus(s: multiset<nat>, b: nat): multiset<nat> {
    s + multiset{b}
  }

  datatype Task = Task(d0: Disk, root: Node, nodes: seq<Node>, ex: Entry, free0: set<nat>)

  /** A cut that its parent does not know of yet. */
  datatype Pending = Pending(extra: multiset<nat>, left: Node, right: Node)

  ghost predicate CutAt(t: Task, i: nat, disk: Disk, p: Pending, rblk: nat, key: nat)
  {
    && i < |t.nodes| && i <= t.root.depth
    && Cut(t.d0, t.root, t.nodes, i, t.ex, p.extra, disk, p.left, p.right, rblk)
    && p.right.entries != [] && key == p.right.entries[0].key
  }

  /** The block of level i of the path: 0 for the root. */
  ghost predicate PathBlk(t: Task, i: nat, blk: nat)
    requires i < |t.nodes|
  {
    if i == 0 then blk == 0
    else t.nodes[i - 1].entries != [] && blk != 0 && blk == SlotAt(t.nodes, t.ex.key, i - 1).phys
  }

  lemma OneMore(free0: set<nat>, before: set<nat>, after: set<nat>, blk: nat)
    requires before <= free0 && RunSet(blk, 1) <= before && after == before - RunSet(blk, 1)
    ensures after <= free0 && blk in free0
    ensures multiset(free0 - after) == multiset(free0 - before) + multiset{blk}
    ensures multiset(free0 - after) <= multiset(free0)
  {
    assert InRun(blk, blk, 1);
    assert free0 - after == (free0 - before) + {blk};
  }

  lemma LeafFull(t: Task, leaf: Node)
    requires Before(t.d0, t.root, t.nodes, t.ex, t.free0) && |t.nodes| == t.root.depth + 1
    requires leaf == t.nodes[t.root.depth] && InsertExtent(leaf.entries, leaf.max, t.ex) == None
    ensures |leaf.entries| == leaf.max && 0 < leaf.max <= BLOCK_SLOTS && leaf.depth == 0
  {
    hide InsertExtent, Inserted;
    LeafFacts(t.d0, t.root, t.nodes, t.ex, t.free0);
    LevelShape(t.d0, t.root, t.nodes, t.root.depth, t.ex, t.free0);
    InsertExtentCorrect(t.d0, leaf.entries, leaf.max, t.ex, HiAt(t.nodes, t.ex.key, t.root.depth));
  }

  /** The disk after both halves of level i have been written. */
  function Halves(disk: Disk, blk: nat, left: Node, right: Node, rblk: nat): Disk {
    (if blk == 0 then disk else disk[blk := TreeBlock(left)])[rblk := TreeBlock(right)]
  }

  lemma LeafCutDone(t: Task, blk: nat, left: Node, right: Node, rblk: nat, d1: Disk)
    requires Before(t.d0, t.root, t.nodes, t.ex, t.free0) && rblk in t.free0 && rblk != 0
    requires |t.nodes| == t.root.depth + 1 && PathBlk(t, t.root.depth, blk)
    requires InsertExtent(t.nodes[t.root.depth].entries, t.nodes[t.root.depth].max, t.ex) == None
    requires (left.entries, right.entries) ==
             SplitAt(t.nodes[t.root.depth].entries, UpperBound(t.nodes[t.root.depth].entries, t.ex.key), t.ex)
    requires left.depth == right.depth == 0 && left.max == t.nodes[t.root.depth].max && right.max == BLOCK_SLOTS
    requires d1 == Halves(t.d0, blk, left, right, rblk)
    ensures Cut(t.d0, t.root, t.nodes, t.root.depth, t.ex, Run(t.ex.phys, t.ex.len), d1, left, right, rblk)
    ensures right.entries != []
  {
    hide InsertExtent, UpperBound, SplitAt, SlotAt, Before;
    LeafCut(t.d0, t.root, t.nodes, t.ex, t.free0, rblk, left, right, d1);
  }

  ghost predicate Tail(t: Task) {
    KeysUpTo(t.nodes, t.ex.key)
  }

  /** Only blocks that were free when the task began have been written over. */
  ghost predicate Kept(t: Task, disk: Disk) {
    OnlyTouched(t.d0, disk, multiset(t.free0))
  }

  lemma KeptAtFirst(t: Task)
    ensures Kept(t, t.d0)
  {
  }

  /** A node that is cut at its end keeps all its slots. */
  lemma TailSplit(t: Task, i: nat, e: Entry)
    requires i < |t.nodes|
    ensures Tail(t) && e.key == t.ex.key ==>
              SplitAt(t.nodes[i].entries, UpperBound(t.nodes[i].entries, e.key), e) == (t.nodes[i].entries, [e])
  {
  }

  /** Writing such a node back changes nothing, and its right half goes to a block that was free. */
  lemma KeptWrite(t: Task, i: nat, blk: nat, d1: Disk, left: Node, right: Node, rblk: nat)
    requires Before(t.d0, t.root, t.nodes, t.ex, t.free0) && i <= t.root.depth && |t.nodes| == t.root.depth + 1
    requires PathBlk(t, i, blk) && rblk in t.free0
    ensures Kept(t, d1) && left == t.nodes[i] ==> Kept(t, Halves(d1, blk, left, right, rblk))
  {
    hide WfTree, Pick, SlotAt;
    if i > 0 {
      assert Linked(t.d0, t.nodes, t.ex.key, i - 1);
      LevelShape(t.d0, t.root, t.nodes, i, t.ex, t.free0);
    }
  }

  // ---------- appending ----------

  /** What appending makes of the shape of a tree; it gets a new level only when it is heavy. */
  ghost predicate Appended(d0: Disk, r0: Node, d1: Disk, r1: Node) {
    Spine(d0, r0.depth, r0.entries) ==>
      && Spine(d1, r1.depth, r1.entries)
      && (|| r1.depth == r0.depth
          || (r1.depth == r0.depth + 1 && |Flat(d0, r0.depth, r0.entries)| >= (ROOT_SLOTS - 1) * Cap(r0.depth)))
  }

  /** While a full right edge is cut from below: the old nodes are as they were, full from level i down, and
      what has been cut off is a chain of new nodes. */
  ghost predicate Growing(t: Task, i: nat, disk: Disk, p: Pending, key: nat) {
    && Tail(t) && Kept(t, disk) && key == t.ex.key && i <= t.root.depth && FullFrom(t.nodes, i)
    && ChainAt(disk, t.root.depth - i, p.right, p.extra)
  }

  ghost predicate EdgeKept(t: Task, i: nat, disk: Disk, n: Node) {
    i <= t.root.depth && (Spine(t.d0, t.root.depth, t.root.entries) ==> Spine(disk, t.root.depth - i, n.entries))
  }

  lemma GrowingParts(t: Task, i: nat, disk: Disk, p: Pending, key: nat)
    ensures Growing(t, i, disk, p, key) ==> Tail(t) && Kept(t, disk) && key == t.ex.key
  {
  }

  lemma LeafChain(t: Task, left: Node, right: Node, disk: Disk)
    requires Before(t.d0, t.root, t.nodes, t.ex, t.free0) && |t.nodes| == t.root.depth + 1
    requires right.depth == 0 && |t.nodes[t.root.depth].entries| == t.nodes[t.root.depth].max
    requires (left.entries, right.entries) ==
             SplitAt(t.nodes[t.root.depth].entries, UpperBound(t.nodes[t.root.depth].entries, t.ex.key), t.ex)
    ensures Tail(t) && Kept(t, disk) ==>
              Growing(t, t.root.depth, disk, Pending(Run(t.ex.phys, t.ex.len), left, right), t.ex.key)
    ensures Tail(t) ==> right.entries == [t.ex]
  {
    hide Before, Kept;
  }

  lemma LeafEdge(t: Task, disk: Disk, n: Node)
    ensures EdgeKept(t, t.root.depth, disk, n)
  {
  }

  /** The block of a path node is the tree's own, and not one of those below it. */
  lemma BlkOwned(t: Task, level: nat, blk: nat)
    requires Before(t.d0, t.root, t.nodes, t.ex, t.free0) && level <= t.root.depth && |t.nodes| == t.root.depth + 1
    requires PathBlk(t, level, blk)
    ensures blk != 0 ==> blk !in t.free0 && blk !in multiset(t.free0) && blk !in TreeOwned(t.d0, t.nodes[level])
  {
    hide WfTree, PathTo, Fits, TreeOwned, Once, Pick, Linked, Level, SlotAt;
    if level > 0 {
      SlotOwned(t.d0, t.root, t.nodes, t.ex.key, level - 1);
      assert blk in multiset(t.free0) ==> !(blk in TreeOwned(t.d0, t.root));
    }
  }

  /** The blocks of a chain, the one that leads to it, and a fresh one are all different, and none of them
      is a block of the path. */
  lemma ChainApart(t: Task, level: nat, blk: nat, extra: multiset<nat>, rblk: nat, nblk: nat)
    requires Before(t.d0, t.root, t.nodes, t.ex, t.free0) && level < t.root.depth && |t.nodes| == t.root.depth + 1
    requires Plus(Plus(extra, rblk), nblk) <= multiset(t.free0) && PathBlk(t, level, blk)
    ensures rblk != nblk && nblk !in extra && (blk != 0 ==> blk != rblk && blk !in extra && blk !in t.free0)
  {
    hide Before, PathBlk, TreeOwned;
    BlkOwned(t, level, blk);
    var all, free := Plus(Plus(extra, rblk), nblk), multiset(t.free0);
    assert all[nblk] <= free[nblk] <= 1;
    assert all[blk] <= free[blk];
  }

  /** Cutting one more level adds one node to the chain. */
  lemma ChainCut(t: Task, level: nat, blk: nat, extra: multiset<nat>, d1: Disk, left: Node, right: Node, rblk: nat,
                 key: nat, nblk: nat, left2: Node, right2: Node)
    requires Before(t.d0, t.root, t.nodes, t.ex, t.free0) && level < t.root.depth && |t.nodes| == t.root.depth + 1
    requires Plus(Plus(extra, rblk), nblk) <= multiset(t.free0) && PathBlk(t, level, blk)
    requires Cut(t.d0, t.root, t.nodes, level + 1, t.ex, extra, d1, left, right, rblk)
    requires |t.nodes[level].entries| == t.nodes[level].max && right2.depth == t.root.depth - level
    requires (left2.entries, right2.entries) ==
             SplitAt(t.nodes[level].entries, UpperBound(t.nodes[level].entries, key), Entry(key, 0, rblk))
    requires Growing(t, level + 1, d1, Pending(extra, left, right), key) ==>
               Kept(t, Halves(d1, blk, left2, right2, nblk))
    ensures Growing(t, level + 1, d1, Pending(extra, left, right), key) ==>
              Growing(t, level, Halves(d1, blk, left2, right2, nblk), Pending(Plus(extra, rblk), left2, right2), key)
  {
    hide Before, UpdatedList, OnlyTouched, PathBlk, SlotAt, Below, IsChild;
    if Growing(t, level + 1, d1, Pending(extra, left, right), key) {
      var d2 := Halves(d1, blk, left2, right2, nblk);
      ChainApart(t, level, blk, extra, rblk, nblk);
      ChainFrame(d1, d2, t.root.depth - level - 1, right, extra, Plus(extra, rblk));
      assert right2.entries == [Entry(key, 0, rblk)];
      assert d2[rblk] == TreeBlock(right);
    }
  }

  /** A level with room takes the chain, and keeps the shape of the right edge. */
  lemma EdgeAdded(t: Task, level: nat, blk: nat, extra: multiset<nat>, d1: Disk, left: Node, right: Node, rblk: nat,
                  n: Node)
    requires Before(t.d0, t.root, t.nodes, t.ex, t.free0) && level < t.root.depth && |t.nodes| == t.root.depth + 1
    requires Plus(extra, rblk) <= multiset(t.free0) && PathBlk(t, level, blk) && right.entries != []
    requires Cut(t.d0, t.root, t.nodes, level + 1, t.ex, extra, d1, left, right, rblk)
    requires n.entries == WithRight(t.nodes[level].entries, right, rblk)
    ensures Growing(t, level + 1, d1, Pending(extra, left, right), right.entries[0].key) ==>
              EdgeKept(t, level, if blk == 0 then d1 else d1[blk := TreeBlock(n)], n)
  {
    hide Before, Cut, PathBlk, SlotAt, Spine, ChainAt, WithRight, Plus, Growing;
    var p := Pending(extra, left, right);
    if Growing(t, level + 1, d1, p, right.entries[0].key) && Spine(t.d0, t.root.depth, t.root.entries) {
      var d, d2, es := t.root.depth - level, if blk == 0 then d1 else d1[blk := TreeBlock(n)], t.nodes[level].entries;
      LevelShape(t.d0, t.root, t.nodes, level, t.ex, t.free0);
      AddedSlot(t, level, d1, p, right, rblk, n);
      OldSlots(t, level, blk, d1, p, right.entries[0].key, d2, extra, rblk);
      NewSlot(t, level, blk, d1, p, right.entries[0].key, d2, extra, left, right, rblk, n);
      SlotAdded(t.d0, d2, d, es, Entry(right.entries[0].key, 0, rblk));
    }
  }

  lemma AddedSlot(t: Task, level: nat, d1: Disk, p: Pending, right: Node, rblk: nat, n: Node)
    requires level < |t.nodes| && right.entries != [] && Growing(t, level + 1, d1, p, right.entries[0].key)
    requires n.entries == WithRight(t.nodes[level].entries, right, rblk)
    ensures n.entries == t.nodes[level].entries + [Entry(right.entries[0].key, 0, rblk)]
  {
  }

  /** The old slots: the same below them, and the last one heavy. */
  lemma OldSlots(t: Task, level: nat, blk: nat, d1: Disk, p: Pending, key: nat, d2: Disk, extra: multiset<nat>,
      rblk: nat)
    requires Before(t.d0, t.root, t.nodes, t.ex, t.free0) && level < t.root.depth && |t.nodes| == t.root.depth + 1
    requires Growing(t, level + 1, d1, p, key) && Spine(t.d0, t.root.depth, t.root.entries) && PathBlk(t, level, blk)
    requires d2 == d1 || (blk != 0 && exists n :: d2 == d1[blk := TreeBlock(n)])
    ensures var d, es := t.root.depth - level, t.nodes[level].entries;
            && es != [] && Spine(t.d0, d, es) && Agree(t.d0, d2, Nodes(t.d0, d, es))
            && |FlatEntry(t.d0, d, es[|es| - 1])| >= Cap(d)
  {
    hide Before, Growing, Spine, PathBlk, Flat, Nodes, FlatEntry, TreeOwned, OnlyTouched;
    GrowingParts(t, level + 1, d1, p, key);
    LastHeavy(t, level, d1, p, key);
    SlotsFree(t, level);
    BlkOwned(t, level, blk);
    SlotsAgree(t, level, blk, d1, d2);
  }

  lemma LastHeavy(t: Task, level: nat, d1: Disk, p: Pending, key: nat)
    requires Before(t.d0, t.root, t.nodes, t.ex, t.free0) && level < t.root.depth && |t.nodes| == t.root.depth + 1
    requires Growing(t, level + 1, d1, p, key) && Spine(t.d0, t.root.depth, t.root.entries)
    ensures var d, es := t.root.depth - level, t.nodes[level].entries;
            es != [] && Spine(t.d0, d, es) && |FlatEntry(t.d0, d, es[|es| - 1])| >= Cap(d)
  {
    hide WfTree, PathTo, Fits, Apart, Spine, ChainAt, Pick, Flat, Nodes, FlatEntry, NodesEntry, FullFrom, KeysUpTo,
        Linked, TreeOwned, SlotAt;
    var d, es, last := t.root.depth - level, t.nodes[level].entries, t.nodes[level + 1];
    LevelShape(t.d0, t.root, t.nodes, level, t.ex, t.free0);
    LevelShape(t.d0, t.root, t.nodes, level + 1, t.ex, t.free0);
    SpineDown(t.d0, t.root, t.ex.key, t.nodes, level);
    PicksLast(t.nodes, t.ex.key, level);
    EdgeWeight(t.d0, t.root, t.ex.key, t.nodes, level + 1);
    PathLinked(t.d0, t.root, t.ex.key, t.nodes, level);
    LinkedChild(t.d0, t.nodes, t.ex.key, level);
    ChildEntry(t.d0, d, es[|es| - 1], last, 0);
    SingleEntry(t.d0, d, es[|es| - 1]);
  }

  lemma PathLinked(disk: Disk, root: Node, l: nat, nodes: seq<Node>, i: nat)
    requires PathTo(disk, root, l, nodes) && i < root.depth
    ensures Linked(disk, nodes, l, i)
  {
  }

  /** The tree blocks below a path node are not free. */
  lemma SlotsFree(t: Task, level: nat)
    requires Before(t.d0, t.root, t.nodes, t.ex, t.free0) && level <= t.root.depth && |t.nodes| == t.root.depth + 1
    ensures forall b :: b in Nodes(t.d0, t.root.depth - level, t.nodes[level].entries) ==>
              b in TreeOwned(t.d0, t.nodes[level]) && b !in multiset(t.free0)
  {
    hide WfTree, PathTo, Fits, Flat, Nodes, WfList;
    PathLevel(t.d0, t.root, t.ex.key, t.nodes, level);
    var part, all := TreeOwned(t.d0, t.nodes[level]), TreeOwned(t.d0, t.root);
    forall b | b in Nodes(t.d0, t.root.depth - level, t.nodes[level].entries)
      ensures b in part && b !in multiset(t.free0)
    {
      assert part[b] <= all[b];
    }
  }

  lemma SlotsAgree(t: Task, level: nat, blk: nat, d1: Disk, d2: Disk)
    requires level <= t.root.depth && |t.nodes| == t.root.depth + 1 && Kept(t, d1)
    requires forall b :: b in Nodes(t.d0, t.root.depth - level, t.nodes[level].entries) ==>
               b in TreeOwned(t.d0, t.nodes[level]) && b !in multiset(t.free0)
    requires blk != 0 ==> blk !in TreeOwned(t.d0, t.nodes[level])
    requires d2 == d1 || (blk != 0 && exists n :: d2 == d1[blk := TreeBlock(n)])
    ensures Agree(t.d0, d2, Nodes(t.d0, t.root.depth - level, t.nodes[level].entries))
  {
    hide TreeOwned, Nodes;
  }

  lemma LinkedChild(disk: Disk, nodes: seq<Node>, l: nat, i: nat)
    requires i + 1 < |nodes| && Linked(disk, nodes, l, i)
    ensures nodes[i].entries != [] && IsChild(disk, nodes[i].depth, SlotAt(nodes, l, i), nodes[i + 1])
  {
  }

  /** The new slot leads to the chain. */
  lemma NewSlot(t: Task, level: nat, blk: nat, d1: Disk, p: Pending, key: nat, d2: Disk, extra: multiset<nat>,
                left: Node, right: Node, rblk: nat, n: Node)
    requires Before(t.d0, t.root, t.nodes, t.ex, t.free0) && level < t.root.depth && |t.nodes| == t.root.depth + 1
    requires Growing(t, level + 1, d1, p, key) && PathBlk(t, level, blk) && p == Pending(extra, left, right)
    requires Plus(extra, rblk) <= multiset(t.free0)
    requires Cut(t.d0, t.root, t.nodes, level + 1, t.ex, extra, d1, left, right, rblk)
    requires d2 == if blk == 0 then d1 else d1[blk := TreeBlock(n)]
    ensures Spine(d2, t.root.depth - level - 1, Kids(d2, t.root.depth - level, Entry(key, 0, rblk)))
  {
    hide Before, UpdatedList, OnlyTouched, PathBlk, SlotAt, Below, IsChild, Spine;
    ChainOff(t, level, blk, extra, rblk);
    ChainFrame(d1, d2, t.root.depth - level - 1, right, extra, extra);
    ChainSpine(d2, t.root.depth - level - 1, right, extra);
    assert d2[rblk] == TreeBlock(right);
  }

  lemma ChainOff(t: Task, level: nat, blk: nat, extra: multiset<nat>, rblk: nat)
    requires Before(t.d0, t.root, t.nodes, t.ex, t.free0) && level < t.root.depth && |t.nodes| == t.root.depth + 1
    requires Plus(extra, rblk) <= multiset(t.free0) && PathBlk(t, level, blk)
    ensures blk != 0 ==> blk != rblk && blk !in extra
  {
    hide Before, PathBlk, TreeOwned;
    BlkOwned(t, level, blk);
    assert Plus(extra, rblk)[blk] <= multiset(t.free0)[blk];
  }

  /** A root that had to be cut was heavy; the new one has two slots. */
  lemma EdgeGrown(t: Task, p: Pending, rblk: nat, oblk: nat, d1: Disk, key: nat)
    requires Before(t.d0, t.root, t.nodes, t.ex, t.free0) && oblk != 0 && p.left.entries != []
    requires CutAt(t, 0, d1, p, rblk, key) && Plus(Plus(p.extra, rblk), oblk) <= multiset(t.free0)
    ensures Growing(t, 0, d1, p, key) ==>
              Appended(t.d0, t.root, d1[oblk := TreeBlock(Node(t.root.depth, BLOCK_SLOTS, p.left.entries))],
                       Node(t.root.depth + 1, ROOT_SLOTS, [Entry(p.left.entries[0].key, 0, oblk), Entry(key, 0, rblk)]))
  {
    hide WfTree, PathTo, Fits, UpdatedList, OnlyTouched, TreeOwned, Spine, Flat, FullFrom, KeysUpTo;
    var D, e, r := t.root.depth, Entry(p.left.entries[0].key, 0, oblk), Entry(key, 0, rblk);
    var d2 := d1[oblk := TreeBlock(Node(D, BLOCK_SLOTS, p.left.entries))];
    if Growing(t, 0, d1, p, key) && Spine(t.d0, D, t.root.entries) {
      LevelShape(t.d0, t.root, t.nodes, 0, t.ex, t.free0);
      EdgeWeight(t.d0, t.root, t.ex.key, t.nodes, 0);
      assert Plus(Plus(p.extra, rblk), oblk)[oblk] <= multiset(t.free0)[oblk] <= 1;
      ChainFrame(d1, d2, D, p.right, p.extra, p.extra);
      ChainSpine(d2, D, p.right, p.extra);
      assert d2[rblk] == TreeBlock(p.right);
      TwoSlots(d2, D + 1, e, r);
    }
  }

  lemma TwoSlots(disk: Disk, d: nat, e: Entry, r: Entry)
    requires 0 < d && Spine(disk, d - 1, Kids(disk, d, r))
    ensures Spine(disk, d, [e, r])
  {
  }

  lemma EdgeSettled(t: Task, i: nat, extra: multiset<nat>, d1: Disk, n: Node)
    requires Before(t.d0, t.root, t.nodes, t.ex, t.free0) && |t.nodes| == t.root.depth + 1 && i <= t.root.depth
    requires Settled(t.d0, t.root, t.nodes, i, t.ex, extra, d1, n) && extra <= multiset(t.free0)
    requires EdgeKept(t, i, d1, n)
    ensures Tail(t) ==> Appended(t.d0, t.root, d1, if i == 0 then n else t.root)
  {
    hide WfTree, PathTo, Fits, UpdatedList, OnlyTouched, TreeOwned, Spine, Flat, FullFrom, NodesEntry, IsChild, SlotAt;
    LevelShape(t.d0, t.root, t.nodes, 0, t.ex, t.free0);
    if i > 0 && Tail(t) && Spine(t.d0, t.root.depth, t.root.entries) {
      SpinePath(t.d0, d1, t.root, t.ex.key, t.nodes, i, n, extra) by {
        ApartSubset(extra, multiset(t.free0), TreeOwned(t.d0, t.root));
      }
    }
  }

  lemma FirstIsUpperBound(disk: Disk, d: nat, es: seq<Entry>, hi: nat, k: nat, p: nat)
    requires WfList(disk, d, es, hi) && p <= |es|
    requires forall i :: 0 <= i < p ==> es[i].key <= k
    requires p < |es| ==> es[p].key > k
    ensures UpperBound(es, k) == p
  {
    if p > 0 {
      UpperBoundAt(disk, d, es, hi, k, p);
    } else {
      UpperBoundSplits(es, k);
      var u := UpperBound(es, k);
      if u > 1 {
        SortedKeys(disk, d, es, hi, 0, u - 1);
      }
    }
  }

  lemma IndexSorted(t: Task, level: nat)
    requires Before(t.d0, t.root, t.nodes, t.ex, t.free0) && level < t.root.depth && |t.nodes| == t.root.depth + 1
    ensures WfList(t.d0, t.root.depth - level, t.nodes[level].entries, HiAt(t.nodes, t.ex.key, level))
    ensures t.nodes[level].depth == t.root.depth - level
  {
    PathLevel(t.d0, t.root, t.ex.key, t.nodes, level);
  }

  lemma IndexStaysDone(t: Task, level: nat, blk: nat, extra: multiset<nat>, d1: Disk, left: Node, right: Node,
                       rblk: nat, n: Node)
    requires Before(t.d0, t.root, t.nodes, t.ex, t.free0) && level < t.root.depth && |t.nodes| == t.root.depth + 1
    requires Plus(extra, rblk) <= multiset(t.free0) && PathBlk(t, level, blk)
    requires Cut(t.d0, t.root, t.nodes, level + 1, t.ex, extra, d1, left, right, rblk)
    requires right.entries != [] && |t.nodes[level].entries| < t.nodes[level].max
    requires n == Node(t.root.depth - level, t.nodes[level].max, WithRight(t.nodes[level].entries, right, rblk))
    ensures Settled(t.d0, t.root, t.nodes, level, t.ex, Plus(extra, rblk),
                    if blk == 0 then d1 else d1[blk := TreeBlock(n)], n)
  {
    hide Before, Cut, Settled, WithRight, SlotAt;
    IndexStays(t.d0, t.root, t.nodes, level, t.ex, t.free0, extra, d1, left, right, rblk, n,
               if blk == 0 then d1 else d1[blk := TreeBlock(n)]);
  }

  lemma IndexCutDone(t: Task, level: nat, blk: nat, extra: multiset<nat>, d1: Disk, left: Node, right: Node,
                     rblk: nat, nblk: nat, left2: Node, right2: Node, d2: Disk)
    requires Before(t.d0, t.root, t.nodes, t.ex, t.free0) && level < t.root.depth && |t.nodes| == t.root.depth + 1
    requires Plus(Plus(extra, rblk), nblk) <= multiset(t.free0) && nblk != 0 && PathBlk(t, level, blk)
    requires Cut(t.d0, t.root, t.nodes, level + 1, t.ex, extra, d1, left, right, rblk)
    requires right.entries != []
    requires (left2.entries, right2.entries) ==
             SplitAt(t.nodes[level].entries, UpperBound(t.nodes[level].entries, right.entries[0].key),
                     Entry(right.entries[0].key, 0, rblk))
    requires left2.depth == right2.depth == t.root.depth - level
    requires left2.max == t.nodes[level].max && right2.max == BLOCK_SLOTS
    requires d2 == Halves(d1, blk, left2, right2, nblk)
    ensures Cut(t.d0, t.root, t.nodes, level, t.ex, Plus(extra, rblk), d2, left2, right2, nblk)
    ensures right2.entries != []
  {
    hide Before, UpperBound, SplitAt, SlotAt;
    IndexCut(t.d0, t.root, t.nodes, level, t.ex, t.free0, extra, d1, left, right, rblk, nblk, left2, right2, d2);
  }

  lemma BlkAt(t: Task, blks: seq<nat>, i: nat)
    requires i < |t.nodes| && PathBlks(t.nodes, t.ex.key, blks)
    ensures i < |blks| && PathBlk(t, i, blks[i])
  {
    if i > 0 {
      assert PathBlkAt(t.nodes, t.ex.key, blks, i);
    }
  }

  lemma RootShape(t: Task, disk: Disk, p: Pending, rblk: nat, key: nat)
    requires Before(t.d0, t.root, t.nodes, t.ex, t.free0) && CutAt(t, 0, disk, p, rblk, key)
    ensures p.left.depth == t.root.depth && t.root.depth <= MAX_DEPTH && p.left.max == ROOT_SLOTS
    ensures 0 < |p.left.entries| <= ROOT_SLOTS && t.nodes[0] == t.root && rblk != 0
  {
    LevelShape(t.d0, t.root, t.nodes, 0, t.ex, t.free0);
  }

  lemma GrowDone(t: Task, p: Pending, rblk: nat, oblk: nat, d1: Disk, free1: set<nat>, free2: set<nat>)
    requires Before(t.d0, t.root, t.nodes, t.ex, t.free0) && t.root.depth < MAX_DEPTH && oblk != 0
    requires p.right.entries != [] && CutAt(t, 0, d1, p, rblk, p.right.entries[0].key)
    requires RunSet(t.ex.phys, t.ex.len) <= t.free0 - free1 && free2 <= free1 && free2 <= t.free0
    requires Plus(Plus(p.extra, rblk), oblk) == multiset(t.free0 - free2)
    requires p.left.entries != []
    ensures Mapped(t.d0, t.root, t.free0, d1[oblk := TreeBlock(Node(t.root.depth, BLOCK_SLOTS, p.left.entries))],
                   Node(t.root.depth + 1, ROOT_SLOTS,
                        [Entry(p.left.entries[0].key, 0, oblk), Entry(p.right.entries[0].key, 0, rblk)]), free2, t.ex)
  {
    hide Before, Mapped, Cut;
    Grow(t.d0, t.root, t.nodes, t.ex, t.free0, free2, p.extra, d1, p.left, p.right, rblk, oblk);
  }

  lemma TaskBegins(t: Task, goal: nat)
    requires WfTree(t.d0, t.root) && PathTo(t.d0, t.root, t.ex.key, t.nodes)
    requires Apart(multiset(t.free0), TreeOwned(t.d0, t.root)) && Room(t.d0, t.root, t.free0, t.ex.key, goal)
    requires 1 <= t.ex.len <= RunGoal(goal) && 1 <= t.ex.phys && RunSet(t.ex.phys, t.ex.len) <= t.free0
    ensures Before(t.d0, t.root, t.nodes, t.ex, t.free0) && |t.nodes| == t.root.depth + 1
  {
    hide WfList, Flat, Owned, Linked;
    assert HasRun(t.free0, t.ex.len);
    assert Vacant(t.d0, t.root, t.ex.key, t.ex.len);
    forall l | Covers(t.ex, l)
      ensures Lookup(Flat(t.d0, t.root.depth, t.root.entries), l) == None
    {
      assert TreeLookup(t.d0, t.root, l) == None;
    }
  }

  lemma RunIsTaken(free0: set<nat>, free1: set<nat>, ex: Entry)
    requires RunSet(ex.phys, ex.len) <= free0 && free1 == free0 - RunSet(ex.phys, ex.len)
    ensures free1 <= free0 && Run(ex.phys, ex.len) == multiset(free0 - free1)
  {
    assert free0 - free1 == RunSet(ex.phys, ex.len);
  }

  lemma SettledDone(t: Task, i: nat, extra: multiset<nat>, d1: Disk, n: Node, free1: set<nat>)
    requires Before(t.d0, t.root, t.nodes, t.ex, t.free0) && |t.nodes| == t.root.depth + 1 && i <= t.root.depth
    requires free1 <= t.free0 && extra == multiset(t.free0 - free1)
    requires Settled(t.d0, t.root, t.nodes, i, t.ex, extra, d1, n)
    requires RunSet(t.ex.phys, t.ex.len) <= t.free0 - free1
    ensures Mapped(t.d0, t.root, t.free0, d1, if i == 0 then n else t.root, free1, t.ex)
  {
    hide Before, Settled, Mapped;
    Finish(t.d0, t.root, t.nodes, i, t.ex, t.free0, free1, d1, n);
  }

  lemma SettledWhole(t: Task, i: nat, extra: multiset<nat>, d1: Disk, n: Node, free1: set<nat>)
    requires Before(t.d0, t.root, t.nodes, t.ex, t.free0) && |t.nodes| == t.root.depth + 1 && i <= t.root.depth
    requires free1 <= t.free0 && extra == multiset(t.free0 - free1)
    requires Settled(t.d0, t.root, t.nodes, i, t.ex, extra, d1, n)
    requires RunSet(t.ex.phys, t.ex.len) <= t.free0 - free1
    ensures Mapped(t.d0, t.root, t.free0, d1, if i == 0 then n else t.root, free1, t.ex)
    ensures Tail(t) && EdgeKept(t, i, d1, n) ==> Appended(t.d0, t.root, d1, if i == 0 then n else t.root)
  {
    hide Before, Settled, Mapped, EdgeKept, Appended, Tail;
    SettledDone(t, i, extra, d1, n, free1);
    if EdgeKept(t, i, d1, n) {
      EdgeSettled(t, i, extra, d1, n);
    }
  }

  lemma GrowWhole(t: Task, p: Pending, rblk: nat, oblk: nat, d1: Disk, free1: set<nat>, free2: set<nat>, key: nat)
    requires Before(t.d0, t.root, t.nodes, t.ex, t.free0) && t.root.depth < MAX_DEPTH && oblk != 0
    requires CutAt(t, 0, d1, p, rblk, key)
    requires RunSet(t.ex.phys, t.ex.len) <= t.free0 - free1 && free2 <= free1 && free2 <= t.free0
    requires Plus(Plus(p.extra, rblk), oblk) == multiset(t.free0 - free2)
    requires p.left.entries != []
    ensures var d2 := d1[oblk := TreeBlock(Node(t.root.depth, BLOCK_SLOTS, p.left.entries))];
            var r := Node(t.root.depth + 1, ROOT_SLOTS, [Entry(p.left.entries[0].key, 0, oblk), Entry(key, 0, rblk)]);
            && Mapped(t.d0, t.root, t.free0, d2, r, free2, t.ex)
            && (Growing(t, 0, d1, p, key) ==> Appended(t.d0, t.root, d2, r))
  {
    hide Before, Mapped, Cut, Growing, Appended, Plus;
    GrowDone(t, p, rblk, oblk, d1, free1, free2);
    EdgeGrown(t, p, rblk, oblk, d1, key);
  }

  lemma EmptyLookup(disk: Disk, l: nat)
    ensures TreeLookup(disk, EMPTY_TREE, l) == None
  {
  }

  lemma SlotPositive(disk: Disk, es: seq<Entry>, hi: nat, i: nat)
    requires WfList(disk, 0, es, hi) && i < |es|
    ensures es[i].phys >= 1
  {
    Slice(es, i);
    Wf3(disk, es[..i], es[i], es[i + 1..], hi);
  }

  /** The leaf at the end of the path answers for l. */
  lemma LeafOfPath(disk: Disk, root: Node, l: nat, nodes: seq<Node>)
    requires WfTree(disk, root) && PathTo(disk, root, l, nodes)
    ensures |nodes| == root.depth + 1
    ensures var leaf := nodes[root.depth];
            && leaf.depth == 0 && |leaf.entries| <= leaf.max <= BLOCK_SLOTS && (root.depth == 0 ==> leaf == root)
            && WfList(disk, 0, leaf.entries, HiAt(nodes, l, root.depth))
            && TreeLookup(disk, root, l) == Lookup(leaf.entries, l)
  {
    PathLevel(disk, root, l, nodes, root.depth);
    FlatLeaf(disk, nodes[root.depth].entries);
    if root.depth > 0 {
      assert Linked(disk, nodes, l, root.depth - 1);
    }
  }

  /** What the leaf at the end of a path maps, the tree maps. */
  lemma {:induction false} LeafInTree(disk: Disk, root: Node, l: nat, nodes: seq<Node>, x: nat)
    requires WfTree(disk, root) && PathTo(disk, root, l, nodes)
    requires Lookup(nodes[root.depth].entries, x).Some?
    ensures TreeLookup(disk, root, x) == Lookup(nodes[root.depth].entries, x)
  {
    PathLevel(disk, root, l, nodes, root.depth);
    FlatLeaf(disk, nodes[root.depth].entries);
    SubtreeInTree(disk, root, l, nodes, root.depth, x);
  }

  lemma {:induction false} SubtreeInTree(disk: Disk, root: Node, l: nat, nodes: seq<Node>, i: nat, x: nat)
    requires WfTree(disk, root) && PathTo(disk, root, l, nodes) && i <= root.depth
    requires TreeLookup(disk, nodes[i], x).Some?
    ensures TreeLookup(disk, root, x) == TreeLookup(disk, nodes[i], x)
  {
    if i > 0 {
      PathLevel(disk, root, l, nodes, i - 1);
      assert Linked(disk, nodes, l, i - 1);
      ChildLookup(disk, nodes[i - 1].depth, nodes[i - 1].entries, HiAt(nodes, l, i - 1), Pick(nodes[i - 1].entries,
          l), nodes[i], x);
      SubtreeInTree(disk, root, l, nodes, i - 1, x);
    }
  }

  /** The extents of the leaf are extents of the tree. */
  lemma ExtentInTree(disk: Disk, root: Node, l: nat, nodes: seq<Node>, e: Entry)
    requires WfTree(disk, root) && PathTo(disk, root, l, nodes) && e in nodes[root.depth].entries
    ensures e in Flat(disk, root.depth, root.entries)
  {
    PathLevel(disk, root, l, nodes, root.depth);
    FlatLeaf(disk, nodes[root.depth].entries);
    ExtentBelow(disk, root, l, nodes, root.depth, e);
  }

  lemma {:induction false} ExtentBelow(disk: Disk, root: Node, l: nat, nodes: seq<Node>, i: nat, e: Entry)
    requires WfTree(disk, root) && PathTo(disk, root, l, nodes) && i <= root.depth
    requires e in Flat(disk, nodes[i].depth, nodes[i].entries)
    ensures e in Flat(disk, root.depth, root.entries)
  {
    hide WfList, Flat, Nodes, Owned, Lookup, HiAt;
    if i > 0 {
      PathLevel(disk, root, l, nodes, i - 1);
      assert Linked(disk, nodes, l, i - 1);
      ChildExtent(disk, nodes[i - 1].depth, nodes[i - 1].entries, Pick(nodes[i - 1].entries, l), nodes[i], e);
      ExtentBelow(disk, root, l, nodes, i - 1, e);
    }
  }

  lemma ChildExtent(disk: Disk, d: nat, es: seq<Entry>, c: nat, n: Node, e: Entry)
    requires 0 < d && c < |es| && IsChild(disk, d, es[c], n) && e in Flat(disk, d - 1, n.entries)
    ensures e in Flat(disk, d, es)
  {
    hide Flat, IsChild;
    Slice(es, c);
    ChildEntry(disk, d, es[c], n, LBLOCKS);
    FlatParts(disk, d, es[..c], [es[c]], es[c + 1..]);
  }

  lemma ChildLookup(disk: Disk, d: nat, es: seq<Entry>, hi: nat, c: nat, n: Node, x: nat)
    requires 0 < d && c < |es| && WfList(disk, d, es, hi) && IsChild(disk, d, es[c], n)
    requires Lookup(Flat(disk, d - 1, n.entries), x).Some?
    ensures Lookup(Flat(disk, d, es), x) == Lookup(Flat(disk, d - 1, n.entries), x)
  {
    hide WfList, Flat;
    var a, e, b := es[..c], es[c], es[c + 1..];
    Slice(es, c);
    WfParts(disk, d, a, [e], b, hi);
    ChildEntry(disk, d, e, n, NextKey(b, hi));
    FlatParts(disk, d, a, [e], b);
    FlatRange(disk, d, [e], NextKey(b, hi), x);
    FlatRange(disk, d, a, e.key, x);
    LookupAppend(Flat(disk, d, a) + Flat(disk, d, [e]), Flat(disk, d, b), x);
    LookupAppend(Flat(disk, d, a), Flat(disk, d, [e]), x);
  }

  /** Nothing is mapped at l or after it. */
  ghost predicate AtEnd(disk: Disk, root: Node, l: nat) {
    forall x :: l <= x ==> TreeLookup(disk, root, x) == None
  }

  lemma AtEndPath(disk: Disk, root: Node, l: nat, nodes: seq<Node>)
    requires WfTree(disk, root) && PathTo(disk, root, l, nodes) && AtEnd(disk, root, l)
    ensures KeysUpTo(nodes, l)
  {
    hide WfTree, WfList, PathTo, Flat;
    forall i | 0 <= i < |nodes| && nodes[i].entries != []
      ensures nodes[i].entries[|nodes[i].entries| - 1].key <= l
    {
      KeyInTree(disk, root, l, nodes, i);
    }
  }

  lemma KeyInTree(disk: Disk, root: Node, l: nat, nodes: seq<Node>, i: nat)
    requires WfTree(disk, root) && PathTo(disk, root, l, nodes) && i < |nodes| && nodes[i].entries != []
    ensures TreeLookup(disk, root, nodes[i].entries[|nodes[i].entries| - 1].key).Some?
  {
    PathLevel(disk, root, l, nodes, i);
    hide WfTree, WfList, PathTo, Flat;
    var es := nodes[i].entries;
    LastKeyMapped(disk, nodes[i].depth, es, HiAt(nodes, l, i));
    SubtreeInTree(disk, root, l, nodes, i, es[|es| - 1].key);
  }

  lemma LastKeyMapped(disk: Disk, d: nat, es: seq<Entry>, hi: nat)
    requires es != [] && WfList(disk, d, es, hi)
    ensures Lookup(Flat(disk, d, es), es[|es| - 1].key).Some?
  {
    hide WfList, Flat;
    var a, e := es[..|es| - 1], es[|es| - 1];
    assert es == a + [e];
    WfAppend(disk, d, a, [e], hi);
    FlatAppend(disk, d, a, [e]);
    FlatRange(disk, d, [e], hi, 0);
    LookupAppend(Flat(disk, d, a), Flat(disk, d, [e]), e.key);
  }

  lemma StillValid(d0: Disk, free0: set<nat>, d1: Disk, free1: set<nat>, root: Node)
    requires WfTree(d0, root) && Apart(multiset(free0), TreeOwned(d0, root))
    requires OnlyTouched(d0, d1, multiset(free0)) && free1 <= free0
    ensures WfTree(d1, root) && Apart(multiset(free1), TreeOwned(d1, root))
    ensures forall x :: TreeLookup(d1, root, x) == TreeLookup(d0, root, x)
    ensures TreeOwned(d1, root) == TreeOwned(d0, root)
  {
    hide WfList, Flat, Nodes;
    SameTree(d0, d1, root, multiset(free0));
    forall b
      ensures !(b in multiset(free1) && b in TreeOwned(d0, root))
    {
      assert b in multiset(free1) ==> b in multiset(free0);
    }
  }

  /** A tree does not notice writes to blocks it does not own. */
  lemma SameTree(d0: Disk, d1: Disk, root: Node, t: multiset<nat>)
    requires OnlyTouched(d0, d1, t) && Apart(t, Nodes(d0, root.depth, root.entries))
    ensures WfTree(d0, root) ==> WfTree(d1, root)
    ensures Flat(d1, root.depth, root.entries) == Flat(d0, root.depth, root.entries)
    ensures Nodes(d1, root.depth, root.entries) == Nodes(d0, root.depth, root.entries)
    ensures TreeOwned(d1, root) == TreeOwned(d0, root)
  {
    hide WfList, Flat, Nodes;
    Frame(d0, d1, root.depth, root.entries);
    if WfTree(d0, root) {
      FrameWf(d0, d1, root.depth, root.entries, LBLOCKS);
    }
  }

  lemma MappedValid(d0: Disk, r0: Node, free0: set<nat>, d1: Disk, r1: Node, free1: set<nat>, ex: Entry)
    requires Mapped(d0, r0, free0, d1, r1, free1, ex) && Apart(multiset(free0), TreeOwned(d0, r0))
    ensures WfTree(d1, r1) && Apart(multiset(free1), TreeOwned(d1, r1))
  {
    hide WfTree, IsUpdate, OnlyTouched;
    forall b
      ensures !(b in multiset(free1) && b in TreeOwned(d1, r1))
    {
      assert b in multiset(free1) ==> b in multiset(free0);
    }
  }

  lemma LeafStaysDone(t: Task, blk: nat, n: Node, d1: Disk)
    requires Before(t.d0, t.root, t.nodes, t.ex, t.free0) && |t.nodes| == t.root.depth + 1
    requires PathBlk(t, t.root.depth, blk)
    requires InsertExtent(t.nodes[t.root.depth].entries, t.nodes[t.root.depth].max, t.ex) == Some(n.entries)
    requires n.depth == 0 && n.max == t.nodes[t.root.depth].max
    requires d1 == if blk == 0 then t.d0 else t.d0[blk := TreeBlock(n)]
    ensures Settled(t.d0, t.root, t.nodes, t.root.depth, t.ex, Run(t.ex.phys, t.ex.len), d1, n)
  {
    hide Before, InsertExtent, Settled, SlotAt;
    LeafStays(t.d0, t.root, t.nodes, t.ex, t.free0, n.entries, n, d1);
  }
}
