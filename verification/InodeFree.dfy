/**
 Truncation of an extent file (fs/ext4/inode.c): the recursion that frees an extent tree, reading
 each child node into one of four static buffers, and what it gives back to the allocator.
 Block I/O is taken to succeed; running out of buffers is part of the model.
 */
module InodeFree {
  import opened Runs
  import opened FreeSpace
  import opened Balloc
  import opened ExtentTree
  import opened LeafInsert
  import opened TreeUpdate
  import opened TreePath
  import opened ExtentNode
  import opened Extents
  import opened FileData
  import opened RegularFile

  const POOL_BUFS: nat := 4

  // ---------- what is freed ----------

  function RunSeq(p: nat, n: nat): (s: seq<nat>)
    ensures |s| == n
  {
    if n == 0 then [] else RunSeq(p, n - 1) + [p + n - 1]
  }

  /** The blocks handed to ext4_free_block for one slot of a node of depth d, in order, when pool
      buffers are left: without a buffer only the child's own block is freed. */
  function FreedSlot(disk: Disk, d: nat, e: Entry, pool: nat): seq<nat>
    decreases d, 0
  {
    if d == 0 then
      if e.len == 0 || e.phys == 0 then [] else RunSeq(e.phys, e.len)
    else if e.phys == 0 then []
    else (if pool == 0 then [] else Freed(disk, d - 1, Kids(disk, d, e), pool - 1)) + [e.phys]
  }

  function Freed(disk: Disk, d: nat, es: seq<Entry>, pool: nat): seq<nat>
    decreases d, 1 + |es|
  {
    if es == [] then [] else Freed(disk, d, es[..|es| - 1], pool) + FreedSlot(disk, d, es[|es| - 1], pool)
  }

  lemma {:induction false} RunSeqIsRun(p: nat, n: nat)
    ensures multiset(RunSeq(p, n)) == Run(p, n)
  {
    if n > 0 {
      RunSeqIsRun(p, n - 1);
      RunSplit(p, n - 1, 1);
      assert RunSet(p + (n - 1), 1) == {p + (n - 1)};
    } else {
      assert RunSet(p, 0) == {};
    }
  }

  /** One slot gives back what it owns, provided the buffers reach down to the leaves; otherwise
      something below it is lost. */
  lemma {:induction false} FreedSlotOwned(disk: Disk, d: nat, e: Entry, hi: nat, pool: nat)
    requires WfEntry(disk, d, e, hi)
    ensures multiset(FreedSlot(disk, d, e, pool)) <= Owned(disk, d, [e])
    ensures d <= pool ==> multiset(FreedSlot(disk, d, e, pool)) == Owned(disk, d, [e])
    ensures d > pool ==> |FreedSlot(disk, d, e, pool)| < |Owned(disk, d, [e])|
    decreases d, 0
  {
    hide Owned, Run, Freed, WfList, Flat, Nodes;
    OwnedOne(disk, d, e);
    if d == 0 {
      RunSeqIsRun(e.phys, e.len);
    } else {
      var kids := Kids(disk, d, e);
      OwnsSomething(disk, d - 1, kids, hi);
      if pool > 0 {
        FreedOwned(disk, d - 1, kids, hi, pool - 1);
      }
      var below := if pool == 0 then [] else Freed(disk, d - 1, kids, pool - 1);
      OneMoreFreed(below, e.phys, Owned(disk, d - 1, kids));
    }
  }

  lemma OneMoreFreed(below: seq<nat>, x: nat, owned: multiset<nat>)
    requires multiset(below) <= owned
    ensures multiset(below + [x]) <= multiset{x} + owned
    ensures multiset(below) == owned ==> multiset(below + [x]) == multiset{x} + owned
    ensures |below + [x]| == |below| + 1 && |multiset{x} + owned| == 1 + |owned|
  {
    assert multiset(below + [x]) == multiset(below) + multiset{x};
  }

  lemma OwnedOne(disk: Disk, d: nat, e: Entry)
    ensures d == 0 ==> Owned(disk, d, [e]) == Run(e.phys, e.len)
    ensures d > 0 ==> Owned(disk, d, [e]) == multiset{e.phys} + Owned(disk, d - 1, Kids(disk, d, e))
  {
    SingleEntry(disk, d, e);
    DataSingle(e);
  }

  /** Every well-formed subtree holds data. */
  lemma OwnsSomething(disk: Disk, d: nat, es: seq<Entry>, hi: nat)
    requires WfList(disk, d, es, hi) && es != []
    ensures |Owned(disk, d, es)| > 0
  {
    hide WfList;
    FlatWf(disk, d, es, hi);
    var f := Flat(disk, d, es);
    assert f[0].len >= 1 by {
      assert f == [f[0]] + f[1..];
      FirstLen(disk, f, hi);
    }
    assert InRun(f[0].phys, f[0].phys, f[0].len);
    assert f[0].phys in Run(f[0].phys, f[0].len);
    assert f[0].phys in Owned(disk, d, es);
  }

  lemma FirstLen(disk: Disk, f: seq<Entry>, hi: nat)
    requires WfList(disk, 0, f, hi) && f != []
    ensures f[0].len >= 1
  {
  }

  /** What freeing a subtree gives back: with enough buffers exactly what it owns, block for block;
      with fewer, strictly less. */
  lemma {:induction false} FreedOwned(disk: Disk, d: nat, es: seq<Entry>, hi: nat, pool: nat)
    requires WfList(disk, d, es, hi)
    ensures multiset(Freed(disk, d, es, pool)) <= Owned(disk, d, es)
    ensures d <= pool ==> multiset(Freed(disk, d, es, pool)) == Owned(disk, d, es)
    ensures d > pool && es != [] ==> |Freed(disk, d, es, pool)| < |Owned(disk, d, es)|
    decreases d, 1 + |es|
  {
    if es == [] {
    } else {
      var a, e := es[..|es| - 1], es[|es| - 1];
      assert es == a + [e];
      WfAppend(disk, d, a, [e], hi);
      FreedOwned(disk, d, a, e.key, pool);
      WfOne(disk, d, e, hi);
      FreedSlotOwned(disk, d, e, hi, pool);
      OwnedAppend(disk, d, a, [e]);
      SizeLe(multiset(Freed(disk, d, a, pool)), Owned(disk, d, a));
    }
  }

  lemma WfOne(disk: Disk, d: nat, e: Entry, hi: nat)
    ensures WfList(disk, d, [e], hi) ==> WfEntry(disk, d, e, hi)
  {
    assert [e][1..] == [];
  }

  /** The four static buffers free a whole tree exactly when it is at most four levels deep. */
  lemma FourBuffersSuffice(disk: Disk, root: Node)
    requires WfTree(disk, root)
    ensures multiset(Freed(disk, root.depth, root.entries, POOL_BUFS)) == TreeOwned(disk, root) <==> root.depth <= 4
  {
    FreedOwned(disk, root.depth, root.entries, LBLOCKS, POOL_BUFS);
  }

  /** Blocks 2 to 6 are the nodes of a tree of depth 5 with one slot each, over data block 7. */
  function ChainDisk(): Disk {
    map b: nat | 2 <= b <= 6 :: TreeBlock(ChainNode(b))
  }

  function ChainNode(b: nat): Node
    requires b <= 6
  {
    Node(6 - b, BLOCK_SLOTS, [Entry(0, if b == 6 then 1 else 0, b + 1)])
  }

  lemma ChainStored(b: nat)
    requires 2 <= b <= 6
    ensures b in ChainDisk() && ChainDisk()[b] == TreeBlock(ChainNode(b))
  {
  }

  lemma ChainLeaf(disk: Disk, e: Entry)
    requires e == Entry(0, 1, 7)
    ensures WfList(disk, 0, [e], LBLOCKS) && Flat(disk, 0, [e]) == [e] && Nodes(disk, 0, [e]) == multiset{}
  {
    FlatLeaf(disk, [e]);
    var none := [e][1..];
    assert none == [] && NextKey(none, LBLOCKS) == LBLOCKS;
    assert WfEntry(disk, 0, e, LBLOCKS) && WfList(disk, 0, none, LBLOCKS);
  }

  lemma {:induction false} ChainOk(d: nat, e: Entry)
    requires d <= 5 && e == Entry(0, if d == 0 then 1 else 0, 7 - d)
    ensures WfList(ChainDisk(), d, [e], LBLOCKS) && Flat(ChainDisk(), d, [e]) == [Entry(0, 1, 7)]
    ensures forall b: nat :: Nodes(ChainDisk(), d, [e])[b] == if 7 - d <= b < 7 then 1 else 0
  {
    hide WfList, Flat, Nodes, ChainDisk;
    var disk := ChainDisk();
    if d == 0 {
      ChainLeaf(disk, e);
    } else {
      var kid := Entry(0, if d == 1 then 1 else 0, 8 - d);
      ChainOk(d - 1, kid);
      ChainStored(7 - d);
      ChildEntry(disk, d, e, Node(d - 1, BLOCK_SLOTS, [kid]), LBLOCKS);
    }
  }

  /** A well-formed tree that truncation does not give back whole. */
  lemma TooDeep()
    ensures var root := Node(5, ROOT_SLOTS, [Entry(0, 0, 2)]);
            && WfTree(ChainDisk(), root)
            && multiset(Freed(ChainDisk(), 5, root.entries, POOL_BUFS)) != TreeOwned(ChainDisk(), root)
  {
    hide WfList, Flat, Nodes, Freed;
    var disk, root := ChainDisk(), Node(5, ROOT_SLOTS, [Entry(0, 0, 2)]);
    ChainOk(5, Entry(0, 0, 2));
    DataSingle(Entry(0, 1, 7));
    assert Once(TreeOwned(disk, root)) by {
      assert RunSet(7, 1) == {7};
    }
    FourBuffersSuffice(disk, root);
  }

  // ---------- the code ----------

  function Spare(used: seq<bool>): nat {
    if used == [] then 0 else Spare(used[..|used| - 1]) + if used[|used| - 1] then 0 else 1
  }

  lemma {:induction false} SpareTake(used: seq<bool>, k: nat)
    requires k < |used| && !used[k]
    ensures Spare(used) == Spare(used[k := true]) + 1
  {
    if k == |used| - 1 {
      assert used[k := true][..k] == used[..k];
    } else {
      SpareTake(used[..|used| - 1], k);
      assert used[k := true][..|used| - 1] == used[..|used| - 1][k := true];
    }
  }

  lemma AllSpare()
    ensures Spare([false, false, false, false]) == POOL_BUFS
  {
    assert [false][..0] == [];
    assert [false, false][..1] == [false];
    assert [false, false, false][..2] == [false, false];
    assert [false, false, false, false][..3] == [false, false, false];
  }

  lemma {:induction false} SpareNone(used: seq<bool>)
    requires forall k :: 0 <= k < |used| ==> used[k]
    ensures Spare(used) == 0
  {
    if used != [] {
      SpareNone(used[..|used| - 1]);
    }
  }

  /** The static buffers of inode.c (malloc_pool, malloc_used), each big enough for a node. */
  class ScratchPool {
    const used: array<bool>
    const bufs: array<Node>

    constructor ()
      ensures Valid() && used[..] == [false, false, false, false] && fresh(used) && fresh(bufs)
    {
      used := new bool[POOL_BUFS](_ => false);
      bufs := new Node[POOL_BUFS](_ => EMPTY_TREE);
    }

    ghost predicate Valid() {
      used.Length == bufs.Length == POOL_BUFS
    }

    /** simple_malloc: the first buffer not in use, -1 when there is none. */
    method Take() returns (k: int)
      requires Valid()
      modifies used
      ensures k == -1 ==> used[..] == old(used[..]) && Spare(used[..]) == 0
      ensures k != -1 ==> 0 <= k < POOL_BUFS && !old(used[k]) && used[..] == old(used[..])[k := true]
      ensures k != -1 ==> Spare(old(used[..])) == Spare(used[..]) + 1
    {
      for i := 0 to POOL_BUFS
        invariant used[..] == old(used[..])
        invariant forall j :: 0 <= j < i ==> used[j]
      {
        if !used[i] {
          SpareTake(used[..], i);
          used[i] := true;
          return i;
        }
      }
      SpareNone(used[..]);
      k := -1;
    }

    /** simple_free */
    method Give(k: nat)
      requires Valid() && k < POOL_BUFS
      modifies used
      ensures used[..] == old(used[..])[k := false]
    {
      used[k] := false;
    }

    /** No buffer that was in use has been written to. */
    twostate predicate BuffersKept()
      requires Valid()
      reads used, bufs
    {
      && used[..] == old(used[..])
      && forall j :: 0 <= j < POOL_BUFS && used[j] ==> bufs[j] == old(bufs[j])
    }
  }

  ghost predicate Inside(owned: multiset<nat>, blocks: nat) {
    forall b :: b in owned ==> b < blocks
  }

  function Elems(s: seq<nat>): set<nat> {
    set b | b in s
  }

  class Truncation {
    const inode: File
    const file: ExtentFile
    const pool: ScratchPool

    constructor (inode: File, pool: ScratchPool)
      ensures this.inode == inode && file == inode.ext && this.pool == pool
    {
      this.inode, this.file, this.pool := inode, inode.ext, pool;
    }

    ghost predicate Ready()
      reads file.Repr()
    {
      && file.Shape() && file.alloc.Valid() && pool.Valid()
      && pool.used as object !in file.Repr() && pool.bufs as object !in file.Repr()
    }

    /** The header a call works on: the inode's own, or the one in a buffer. */
    function Here(at: int): Node
      requires file.Shape() && pool.Valid() && at < POOL_BUFS
      reads file.root, file.root.slots, pool.bufs
    {
      if at < 0 then file.root.Value() else pool.bufs[at]
    }

    method FreeRun(p: nat, len: nat) returns (ghost trace: seq<nat>)
      requires file.alloc.Valid() && p + len <= file.alloc.geo.blocks
      modifies file.alloc
      ensures file.alloc.Valid()
      ensures trace == RunSeq(p, len) && file.alloc.Free() == old(file.alloc.Free()) + Elems(trace)
    {
      trace := [];
      var j := 0;
      while j < len
        invariant 0 <= j <= len && file.alloc.Valid()
        invariant trace == RunSeq(p, j) && file.alloc.Free() == old(file.alloc.Free()) + Elems(trace)
      {
        hide FreeSet;
        var ok := file.alloc.FreeBlock(p + j);
        trace := trace + [p + j];
        j := j + 1;
      }
    }

    /** ext4_free_extent_tree_node on the node at hand; trace lists the blocks freed, in order. */
    method FreeTreeNode(at: int, ghost hi: nat) returns (ghost trace: seq<nat>)
      requires Ready() && at < POOL_BUFS && (at >= 0 ==> pool.used[at])
      requires WfList(file.dev.blocks, Here(at).depth, Here(at).entries, hi)
      requires Inside(Owned(file.dev.blocks, Here(at).depth, Here(at).entries), file.alloc.geo.blocks)
      modifies file.alloc, pool.used, pool.bufs
      ensures Ready() && pool.BuffersKept()
      ensures trace == Freed(file.dev.blocks, old(Here(at)).depth, old(Here(at)).entries, Spare(old(pool.used[..])))
      ensures file.alloc.Free() == old(file.alloc.Free()) + Elems(trace)
      decreases Here(at).depth
    {
      hide FreeSet, CountsMatch, WfGeo, WfList, WfEntry, Owned, Spare, Inside;
      ghost var n, disk := Here(at), file.dev.blocks;
      ghost var spare := Spare(pool.used[..]);
      trace := [];
      var i := 0;
      while i < |Here(at).entries|
        invariant 0 <= i <= |n.entries| && Here(at) == n && file.dev.blocks == disk
        invariant Ready() && pool.BuffersKept()
        invariant trace == Freed(disk, n.depth, n.entries[..i], spare)
        invariant file.alloc.Free() == old(file.alloc.Free()) + Elems(trace)
      {
        ghost var before := trace;
        SlotFacts(disk, n, hi, i, file.alloc.geo.blocks);
        var e := Here(at).entries[i];
        assert n.entries[..i + 1][..i] == n.entries[..i];
        ghost var more := FreeSlot(at, e, SlotEnd(n.entries, i, hi));
        trace := trace + more;
        assert Elems(trace) == Elems(before) + Elems(more);
        i := i + 1;
      }
      assert n.entries[..i] == n.entries;
    }

    method FreeSlot(at: int, e: Entry, ghost hi: nat) returns (ghost trace: seq<nat>)
      requires Ready() && at < POOL_BUFS && (at >= 0 ==> pool.used[at])
      requires WfEntry(file.dev.blocks, Here(at).depth, e, hi)
      requires Inside(Owned(file.dev.blocks, Here(at).depth, [e]), file.alloc.geo.blocks)
      requires Here(at).depth == 0 ==> e.phys >= 1 && e.len >= 1 && e.phys + e.len <= file.alloc.geo.blocks
      modifies file.alloc, pool.used, pool.bufs
      ensures Ready() && pool.BuffersKept()
      ensures trace == FreedSlot(file.dev.blocks, old(Here(at)).depth, e, Spare(old(pool.used[..])))
      ensures file.alloc.Free() == old(file.alloc.Free()) + Elems(trace)
      decreases Here(at).depth, 1
    {
      hide FreeSet, CountsMatch, WfGeo, WfList, WfEntry, Owned, Spare, Inside;
      trace := [];
      if Here(at).depth == 0 {
        if e.len != 0 && e.phys != 0 {
          trace := FreeRun(e.phys, e.len);
        }
      } else if e.phys != 0 {
        trace := FreeChild(at, e, hi);
      }
    }

    /** One index entry: what is below it is freed through a buffer of its own, when there is one left. */
    method FreeChild(at: int, e: Entry, ghost hi: nat) returns (ghost trace: seq<nat>)
      requires Ready() && at < POOL_BUFS && (at >= 0 ==> pool.used[at]) && Here(at).depth > 0
      requires WfEntry(file.dev.blocks, Here(at).depth, e, hi)
      requires Inside(Owned(file.dev.blocks, Here(at).depth, [e]), file.alloc.geo.blocks)
      modifies file.alloc, pool.used, pool.bufs
      ensures Ready() && pool.BuffersKept()
      ensures trace == FreedSlot(file.dev.blocks, old(Here(at)).depth, e, Spare(old(pool.used[..])))
      ensures file.alloc.Free() == old(file.alloc.Free()) + Elems(trace)
      decreases Here(at).depth, 0
    {
      hide FreeSet, CountsMatch, WfGeo, WfList, Owned, Spare, Inside, Freed, Kids, Flat, Nodes, FreedSlot, Elems;
      ghost var d, disk := Here(at).depth, file.dev.blocks;
      ChildFacts(disk, d, e, hi, file.alloc.geo.blocks);
      trace := [];
      var k := pool.Take();
      if k != -1 {
        pool.bufs[k] := file.dev.blocks[e.phys].node;
        assert Here(k).entries == Kids(disk, d, e);
        trace := FreeTreeNode(k, hi);
        pool.Give(k);
      }
      ghost var below := trace;
      var ok := file.alloc.FreeBlock(e.phys);
      trace := trace + [e.phys];
      LastFreed(disk, d, e, Spare(old(pool.used[..])), below);
    }

    /** ext4_free_inode_data_blocks on an extent file: the tree's blocks become free, all but those in
        leak, and the file is empty. */
    method FreeDataBlocks() returns (ghost leak: multiset<nat>)
      requires Ready() && file == inode.ext && file.Valid() && inode as object !in file.Repr()
      requires pool.used[..] == [false, false, false, false]
      requires Inside(inode.Owned(), file.alloc.geo.blocks)
      modifies inode, file, file.alloc, pool.used, pool.bufs
      ensures Ready() && pool.used[..] == old(pool.used[..])
      ensures inode.Valid() && inode.Bytes() == [] && inode.mapped == 0 && file.Tree() == EMPTY_TREE
      ensures multiset(file.alloc.Free()) + leak == multiset(old(file.alloc.Free())) + old(inode.Owned())
      ensures leak == multiset{} <==> old(file.Tree()).depth <= 4
    {
      hide FreeSet, CountsMatch, WfGeo, FileOk, WfTree, WfList, Spare, Owned, TreeOwned, Freed, Once, Apart, Inside,
          Contents;
      ghost var tree, disk, free0 := file.Tree(), file.dev.blocks, file.alloc.Free();
      ghost var trace := [];
      WholeTree(disk, tree, free0, file.alloc.geo.blocks);
      AllSpare();
      if file.inited {
        trace := FreeTreeNode(-1, LBLOCKS);
      }
      leak := TreeOwned(disk, tree) - multiset(trace);
      file.inited := false;
      inode.size, inode.mapped := 0, 0;
      EmptyFile(disk);
      EmptyTree(disk);
      ApartNothing(file.alloc.Free());
    }
  }

  /** Blocks owned once and not free are all counted in when they become free. */
  lemma GivenBack(free0: set<nat>, trace: seq<nat>, owned: multiset<nat>)
    requires multiset(trace) <= owned && Once(owned) && Apart(multiset(free0), owned)
    ensures multiset(free0 + Elems(trace)) + (owned - multiset(trace)) == multiset(free0) + owned
  {
    forall b: nat
      ensures (multiset(free0 + Elems(trace)) + (owned - multiset(trace)))[b] == (multiset(free0) + owned)[b]
    {
      assert b in trace <==> multiset(trace)[b] > 0;
      assert multiset(trace)[b] <= owned[b] <= 1;
      assert b in owned ==> b !in multiset(free0);
    }
  }

  lemma LastFreed(disk: Disk, d: nat, e: Entry, pool: nat, below: seq<nat>)
    requires 0 < d && e.phys != 0
    requires below == if pool == 0 then [] else Freed(disk, d - 1, Kids(disk, d, e), pool - 1)
    ensures below + [e.phys] == FreedSlot(disk, d, e, pool)
    ensures Elems(below + [e.phys]) == Elems(below) + {e.phys} && Elems([]) == {}
  {
    hide Freed, Kids;
  }

  lemma ApartNothing(s: set<nat>)
    ensures Apart(multiset(s), multiset{})
  {
  }

  /** What FreeDataBlocks needs to know of the tree it frees. */
  lemma WholeTree(disk: Disk, root: Node, free0: set<nat>, blocks: nat)
    requires WfTree(disk, root) && Inside(TreeOwned(disk, root), blocks)
    requires Apart(multiset(free0), TreeOwned(disk, root))
    ensures WfList(disk, root.depth, root.entries, LBLOCKS) && Inside(Owned(disk, root.depth, root.entries), blocks)
    ensures root == EMPTY_TREE ==> Freed(disk, root.depth, root.entries, POOL_BUFS) == []
    ensures var trace, owned := Freed(disk, root.depth, root.entries, POOL_BUFS), TreeOwned(disk, root);
            && multiset(free0 + Elems(trace)) + (owned - multiset(trace)) == multiset(free0) + owned
            && (owned - multiset(trace) == multiset{} <==> root.depth <= 4)
  {
    hide WfList, Owned, Freed;
    FourBuffersSuffice(disk, root);
    FreedOwned(disk, root.depth, root.entries, LBLOCKS, POOL_BUFS);
    var trace, owned := Freed(disk, root.depth, root.entries, POOL_BUFS), TreeOwned(disk, root);
    GivenBack(free0, trace, owned);
    if owned - multiset(trace) == multiset{} {
      assert owned == multiset(trace) + (owned - multiset(trace));
    }
    NoTrace(disk);
  }

  lemma NoTrace(disk: Disk)
    ensures Freed(disk, 0, [], POOL_BUFS) == []
  {
  }

  /** The bound of what lies below slot i. */
  function SlotEnd(es: seq<Entry>, i: nat, hi: nat): nat
    requires i < |es|
  {
    NextKey(es[i + 1..], hi)
  }

  lemma InsideParts(s: multiset<nat>, t: multiset<nat>, blocks: nat)
    requires Inside(s + t, blocks)
    ensures Inside(s, blocks) && Inside(t, blocks)
  {
    forall b | b in s || b in t
      ensures b < blocks
    {
      assert b in s + t;
    }
  }

  lemma SlotFacts(disk: Disk, n: Node, hi: nat, i: nat, blocks: nat)
    requires WfList(disk, n.depth, n.entries, hi) && i < |n.entries|
    requires Inside(Owned(disk, n.depth, n.entries), blocks)
    ensures var e := n.entries[i];
            && WfEntry(disk, n.depth, e, SlotEnd(n.entries, i, hi))
            && Inside(Owned(disk, n.depth, [e]), blocks)
            && (n.depth == 0 ==> e.phys >= 1 && e.len >= 1 && e.phys + e.len <= blocks)
  {
    var a, e, b := n.entries[..i], n.entries[i], n.entries[i + 1..];
    assert n.entries == a + ([e] + b);
    hide WfList, Owned;
    WfAppend(disk, n.depth, a, [e] + b, hi);
    WfAppend(disk, n.depth, [e], b, hi);
    WfOne(disk, n.depth, e, NextKey(b, hi));
    OwnedAppend(disk, n.depth, a, [e] + b);
    OwnedAppend(disk, n.depth, [e], b);
    InsideParts(Owned(disk, n.depth, a), Owned(disk, n.depth, [e] + b), blocks);
    InsideParts(Owned(disk, n.depth, [e]), Owned(disk, n.depth, b), blocks);
    OwnedOne(disk, n.depth, e);
    if n.depth == 0 {
      assert InRun(e.phys + (e.len - 1), e.phys, e.len);
      assert e.phys + (e.len - 1) in Owned(disk, n.depth, [e]);
    }
  }

  lemma ChildFacts(disk: Disk, d: nat, e: Entry, hi: nat, blocks: nat)
    requires 0 < d && WfEntry(disk, d, e, hi) && Inside(Owned(disk, d, [e]), blocks)
    ensures HasChild(disk, d, e) && e.phys < blocks && disk[e.phys].node.entries == Kids(disk, d, e)
    ensures WfList(disk, d - 1, Kids(disk, d, e), hi) && Inside(Owned(disk, d - 1, Kids(disk, d, e)), blocks)
  {
    hide Owned;
    OwnedOne(disk, d, e);
    InsideParts(multiset{e.phys}, Owned(disk, d - 1, Kids(disk, d, e)), blocks);
    assert e.phys in multiset{e.phys};
  }
}
