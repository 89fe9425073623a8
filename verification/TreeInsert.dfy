/**
 The stages of ext4_extents_insert_mapped_block between the insertion into a leaf and the finished
 tree: what holds after each disk write, level by level, on values.
 */
module TreeInsert {
  import opened Wrappers
  import opened Runs
  import opened ExtentTree
  import opened LeafInsert
  import opened TreeUpdate
  import opened TreePath

  /** The two nodes a full node is cut into at the insertion point: the new slot ends the left half,
      or starts the right one when it comes last. */
  function SplitAt(es: seq<Entry>, p: nat, e: Entry): (seq<Entry>, seq<Entry>)
    requires p <= |es|
  {
    if p == |es| then (es, [e]) else (es[..p] + [e], es[p..])
  }

  lemma SplitAtWhole(es: seq<Entry>, p: nat, e: Entry)
    requires p <= |es| && es != []
    ensures SplitAt(es, p, e).0 + SplitAt(es, p, e).1 == PutAt(es, p, e)
    ensures 0 < |SplitAt(es, p, e).0| <= |es| && 0 < |SplitAt(es, p, e).1| <= |es|
  {
  }

  /** What holds before the insertion: a well-formed tree, the path to the new block, and a run of
      blocks that neither the tree maps nor owns. */
  ghost predicate Before(d0: Disk, root: Node, nodes: seq<Node>, ex: Entry, free0: set<nat>) {
    && WfTree(d0, root) && PathTo(d0, root, ex.key, nodes) && Fits(d0, root, ex, LBLOCKS)
    && (0 < root.depth ==> root.entries[0].key <= ex.key)
    && Apart(multiset(free0), TreeOwned(d0, root))
  }

  /** The tree blocks at or below level i of the path. */
  ghost function Below(d0: Disk, root: Node, nodes: seq<Node>, l: nat, i: nat): multiset<nat>
    requires i < |nodes| && i <= root.depth
  {
    if i == 0 then Nodes(d0, root.depth, root.entries)
    else if nodes[i - 1].entries == [] then multiset{}
    else NodesEntry(d0, root.depth - i + 1, SlotAt(nodes, l, i - 1))
  }

  /** The disk with the node of level i written to its block; the root has none. */
  ghost function PutNode(disk: Disk, nodes: seq<Node>, l: nat, i: nat, n: Node): Disk
    requires i < |nodes|
  {
    if i == 0 || nodes[i - 1].entries == [] then disk
    else disk[SlotAt(nodes, l, i - 1).phys := TreeBlock(n)]
  }

  /** Level i has taken in the change: its node is now n. */
  ghost predicate Settled(d0: Disk, root: Node, nodes: seq<Node>, i: nat, ex: Entry, extra: multiset<nat>, d1: Disk,
      n: Node)
    requires i < |nodes| && i <= root.depth
  {
    && n.depth == nodes[i].depth && n.max == nodes[i].max && 0 < |n.entries| <= n.max
    && UpdatedList(d0, nodes[i].entries, d1, n.entries, root.depth - i, HiAt(nodes, ex.key, i), ex, extra)
    && OnlyTouched(d0, d1, Below(d0, root, nodes, ex.key, i) + extra)
    && (0 < i ==> nodes[i - 1].entries != [] && IsChild(d1, root.depth - i + 1, SlotAt(nodes, ex.key, i - 1), n))
  }

  /** Level i has been cut into left, in place, and right, in block rblk, which no parent knows yet. */
  ghost predicate Cut(d0: Disk, root: Node, nodes: seq<Node>, i: nat, ex: Entry, extra: multiset<nat>,
                      d1: Disk, left: Node, right: Node, rblk: nat)
    requires i < |nodes| && i <= root.depth
  {
    && left.depth == right.depth == root.depth - i && left.max == nodes[i].max && right.max == BLOCK_SLOTS
    && 0 < |left.entries| <= left.max && 0 < |right.entries| <= BLOCK_SLOTS
    && UpdatedList(d0, nodes[i].entries, d1, left.entries + right.entries, root.depth - i,
                   HiAt(nodes, ex.key, i), ex, extra)
    && OnlyTouched(d0, d1, Below(d0, root, nodes, ex.key, i) + (extra + multiset{rblk}))
    && rblk != 0 && rblk in d1 && d1[rblk] == TreeBlock(right)
    && (0 < i ==> nodes[i - 1].entries != [] && IsChild(d1, root.depth - i + 1, SlotAt(nodes, ex.key, i - 1), left))
  }

  /** What the insertion as a whole has done, from tree (d0, r0) and free set free0. */
  ghost predicate Mapped(d0: Disk, r0: Node, free0: set<nat>, d1: Disk, r1: Node, free1: set<nat>, ex: Entry) {
    && WfTree(d1, r1)
    && IsUpdate(Flat(d0, r0.depth, r0.entries), Flat(d1, r1.depth, r1.entries), ex)
    && free1 <= free0 && RunSet(ex.phys, ex.len) <= free0 - free1
    && TreeOwned(d1, r1) == TreeOwned(d0, r0) + multiset(free0 - free1)
    && OnlyTouched(d0, d1, Nodes(d0, r0.depth, r0.entries) + multiset(free0 - free1))
  }

  /** The block of level i holds n, which starts where the slot above it says. */
  ghost predicate StoredAt(disk: Disk, nodes: seq<Node>, l: nat, i: nat, n: Node)
    requires i < |nodes|
  {
    0 < i ==>
      && nodes[i - 1].entries != [] && n.entries != []
      && var e := SlotAt(nodes, l, i - 1);
      e.phys != 0 && e.phys in disk && disk[e.phys] == TreeBlock(n) && n.entries[0].key == e.key
  }

  // ---------- the leaf ----------

  /** The child slot of level i - 1 and the shape of level i. */
  lemma LevelShape(d0: Disk, root: Node, nodes: seq<Node>, i: nat, ex: Entry, free0: set<nat>)
    requires Before(d0, root, nodes, ex, free0) && i <= root.depth
    ensures |nodes| == root.depth + 1
    ensures nodes[i].depth == root.depth - i
    ensures (i == 0 ==> nodes[i] == root) && nodes[i].max == if i == 0 then ROOT_SLOTS else BLOCK_SLOTS
    ensures |nodes[i].entries| <= nodes[i].max
    ensures 0 < i || 0 < root.depth ==> nodes[i].entries != []
    ensures 0 < i ==> nodes[i - 1].entries != [] && nodes[i].entries != [] &&
                      nodes[i].entries[0].key == SlotAt(nodes, ex.key, i - 1).key &&
                      SlotAt(nodes, ex.key, i - 1).phys != 0
  {
    hide WfList, Owned, Flat;
    PathLevel(d0, root, ex.key, nodes, i);
    if i > 0 {
      assert Linked(d0, nodes, ex.key, i - 1);
    }
  }

  lemma UpdatedLeaf(d0: Disk, d1: Disk, o: seq<Entry>, r: seq<Entry>, hi: nat, ex: Entry)
    requires Inserted(d0, o, ex, hi, r)
    ensures UpdatedList(d0, o, d1, r, 0, hi, ex, Run(ex.phys, ex.len))
  {
    FlatLeaf(d0, o);
    FlatLeaf(d1, r);
    FlatLeaf(d0, r);
    FrameWf(d0, d1, 0, r, hi);
  }

  lemma LeafFacts(d0: Disk, root: Node, nodes: seq<Node>, ex: Entry, free0: set<nat>)
    requires Before(d0, root, nodes, ex, free0)
    ensures var leaf, hi := nodes[root.depth], HiAt(nodes, ex.key, root.depth);
            && leaf.depth == 0 && |leaf.entries| <= leaf.max
            && WfList(d0, 0, leaf.entries, hi) && ValidExtent(ex, hi) && Unmapped(leaf.entries, ex)
            && (0 < root.depth ==>
                  && Linked(d0, nodes, ex.key, root.depth - 1)
                  && leaf.entries != [] && leaf.entries[0].key <= ex.key
                  && leaf.max == BLOCK_SLOTS && leaf.entries[0].key == SlotAt(nodes, ex.key, root.depth - 1).key
                  && SlotAt(nodes, ex.key, root.depth - 1).phys in TreeOwned(d0, root))
            && (0 == root.depth ==> leaf == root)
  {
    hide WfList, Owned, Nodes, Flat, Unmapped;
    var D := root.depth;
    PathLevel(d0, root, ex.key, nodes, D);
    PathFits(d0, root, nodes, D, ex);
    FlatLeaf(d0, nodes[D].entries);
    if D > 0 {
      assert Linked(d0, nodes, ex.key, D - 1);
      SlotOwned(d0, root, nodes, ex.key, D - 1);
    }
  }

  lemma SlotOwned(d0: Disk, root: Node, nodes: seq<Node>, l: nat, i: nat)
    requires WfTree(d0, root) && PathTo(d0, root, l, nodes) && i < root.depth
    ensures Level(d0, root, l, nodes, i) && Linked(d0, nodes, l, i)
    ensures multiset{SlotAt(nodes, l, i).phys} + TreeOwned(d0, nodes[i + 1]) <= TreeOwned(d0, root)
    ensures SlotAt(nodes, l, i).phys in TreeOwned(d0, root)
    ensures SlotAt(nodes, l, i).phys !in TreeOwned(d0, nodes[i + 1])
  {
    hide WfList, Owned;
    PathLevel(d0, root, l, nodes, i);
    assert Linked(d0, nodes, l, i);
    LevelStep(d0, root, l, nodes, i);
    var b := SlotAt(nodes, l, i).phys;
    assert (multiset{b} + TreeOwned(d0, nodes[i + 1]))[b] >= 1;
    OnceApart(TreeOwned(d0, root), b, TreeOwned(d0, nodes[i + 1]));
  }

  lemma OwnApart(own: multiset<nat>, extra: multiset<nat>, free: multiset<nat>, all: multiset<nat>)
    requires Apart(free, all) && extra <= free && forall b :: b in own ==> b in all
    ensures Apart(own, extra)
  {
    forall b | b in extra
      ensures b in free
    {
    }
  }

  /** The block of level i itself, none for the root. */
  ghost function OwnBlock(nodes: seq<Node>, l: nat, i: nat): multiset<nat>
    requires i < |nodes|
  {
    if i == 0 || nodes[i - 1].entries == [] then multiset{} else multiset{SlotAt(nodes, l, i - 1).phys}
  }

  lemma OwnBlockFacts(d0: Disk, root: Node, nodes: seq<Node>, i: nat, ex: Entry, free0: set<nat>, extra: multiset<nat>)
    requires Before(d0, root, nodes, ex, free0) && i <= root.depth && extra <= multiset(free0)
    ensures i < |nodes| && nodes[i].depth == root.depth - i
    ensures 0 < i ==> nodes[i - 1].entries != []
    ensures Below(d0, root, nodes, ex.key, i) ==
            OwnBlock(nodes, ex.key, i) + Nodes(d0, root.depth - i, nodes[i].entries)
    ensures Apart(OwnBlock(nodes, ex.key, i), TreeOwned(d0, nodes[i])) && Apart(OwnBlock(nodes, ex.key, i), extra)
  {
    hide WfList, Flat, Owned, Nodes;
    var l := ex.key;
    PathLevel(d0, root, l, nodes, i);
    if i > 0 {
      SlotOwned(d0, root, nodes, l, i - 1);
      ChildEntry(d0, root.depth - i + 1, SlotAt(nodes, l, i - 1), nodes[i], 0);
      SingleEntry(d0, root.depth - i + 1, SlotAt(nodes, l, i - 1));
      OwnApart(OwnBlock(nodes, l, i), extra, multiset(free0), TreeOwned(d0, root));
    }
  }

  /** The one write of an index level with room: the node where it was. */
  lemma PutOne(d1: Disk, nodes: seq<Node>, l: nat, i: nat, n: Node)
    requires i < |nodes| && (0 < i ==> nodes[i - 1].entries != [])
    ensures var d2 := PutNode(d1, nodes, l, i, n);
            && OnlyTouched(d1, d2, OwnBlock(nodes, l, i) + multiset{})
            && (0 < i ==> SlotAt(nodes, l, i - 1).phys in d2 && d2[SlotAt(nodes, l, i - 1).phys] == TreeBlock(n))
  {
    if i > 0 {
      assert SlotAt(nodes, l, i - 1).phys in OwnBlock(nodes, l, i);
    }
  }

  lemma SettledIntro(d0: Disk, root: Node, nodes: seq<Node>, i: nat, ex: Entry, extra: multiset<nat>, d1: Disk, n: Node)
    requires |nodes| == root.depth + 1 && i <= root.depth
    requires n.depth == nodes[i].depth == root.depth - i && n.max == nodes[i].max && 0 < |n.entries| <= n.max
    requires 0 < i ==> n.max == BLOCK_SLOTS
    requires UpdatedList(d0, nodes[i].entries, d1, n.entries, root.depth - i, HiAt(nodes, ex.key, i), ex, extra)
    requires OnlyTouched(d0, d1, Below(d0, root, nodes, ex.key, i) + extra)
    requires StoredAt(d1, nodes, ex.key, i, n)
    ensures Settled(d0, root, nodes, i, ex, extra, d1, n)
  {
    hide UpdatedList, OnlyTouched, Below, HiAt, SlotAt;
  }

  lemma LeafStays(d0: Disk, root: Node, nodes: seq<Node>, ex: Entry, free0: set<nat>, r: seq<Entry>, n: Node, d1: Disk)
    requires Before(d0, root, nodes, ex, free0)
    requires InsertExtent(nodes[root.depth].entries, nodes[root.depth].max, ex) == Some(r)
    requires n == Node(0, nodes[root.depth].max, r) && d1 == PutNode(d0, nodes, ex.key, root.depth, n)
    ensures Settled(d0, root, nodes, root.depth, ex, Run(ex.phys, ex.len), d1, n)
  {
    hide Before, Settled, WfList, Inserted, InsertExtent, Unmapped, UpdatedList, OnlyTouched, PutNode, Below,
        OwnBlock, HiAt, SlotAt, Nodes, Linked;
    var D := root.depth;
    LevelShape(d0, root, nodes, D, ex, free0);
    LeafFacts(d0, root, nodes, ex, free0);
    OwnBlockFacts(d0, root, nodes, D, ex, free0, multiset{});
    InsertExtentCorrect(d0, nodes[D].entries, nodes[D].max, ex, HiAt(nodes, ex.key, D));
    UpdatedLeaf(d0, d1, nodes[D].entries, r, HiAt(nodes, ex.key, D), ex);
    PutOne(d0, nodes, ex.key, D, n);
    TouchedMore(d0, d1, OwnBlock(nodes, ex.key, D) + multiset{}, Below(d0, root, nodes, ex.key, D) + Run(ex.phys,
        ex.len));
    SettledIntro(d0, root, nodes, D, ex, Run(ex.phys, ex.len), d1, n);
  }

  lemma LeafHalves(d0: Disk, d1: Disk, es: seq<Entry>, max: nat, ex: Entry, hi: nat)
    requires WfList(d0, 0, es, hi) && 0 < max && |es| <= max && ValidExtent(ex, hi) && Unmapped(es, ex)
    requires InsertExtent(es, max, ex) == None
    ensures |es| == max
    ensures var (l, r) := SplitAt(es, UpperBound(es, ex.key), ex);
            && UpdatedList(d0, es, d1, l + r, 0, hi, ex, Run(ex.phys, ex.len))
            && 0 < |l| <= |es| && 0 < |r| <= |es|
            && (es[0].key <= ex.key ==> l[0].key == es[0].key)
  {
    hide WfList, InsertExtent, Unmapped, UpdatedList, IsUpdate;
    InsertExtentCorrect(d0, es, max, ex, hi);
    UpperBoundSplits(es, ex.key);
    var p := UpperBound(es, ex.key);
    SplitAtWhole(es, p, ex);
    PlainInsert(d0, es, ex, hi);
    UpdatedLeaf(d0, d1, es, PutAt(es, p, ex), hi, ex);
  }

  /** The two writes of a split: the left half where the node was, the right half in a fresh block. */
  lemma PutBoth(d1: Disk, nodes: seq<Node>, l: nat, i: nat, left: Node, right: Node, rblk: nat)
    requires i < |nodes| && (0 < i ==> nodes[i - 1].entries != []) && Apart(OwnBlock(nodes, l, i), multiset{rblk})
    ensures var d2 := PutNode(d1, nodes, l, i, left)[rblk := TreeBlock(right)];
            && OnlyTouched(d1, d2, OwnBlock(nodes, l, i) + multiset{rblk})
            && d2[rblk] == TreeBlock(right)
            && (0 < i ==> SlotAt(nodes, l, i - 1).phys in d2 && d2[SlotAt(nodes, l, i - 1).phys] == TreeBlock(left))
  {
    if i > 0 {
      assert SlotAt(nodes, l, i - 1).phys in OwnBlock(nodes, l, i);
      assert rblk in multiset{rblk};
    }
  }

  lemma CutIntro(d0: Disk, root: Node, nodes: seq<Node>, i: nat, ex: Entry, extra: multiset<nat>,
                 d1: Disk, left: Node, right: Node, rblk: nat)
    requires |nodes| == root.depth + 1 && i <= root.depth
    requires left.depth == right.depth == root.depth - i && left.max == nodes[i].max && right.max == BLOCK_SLOTS
    requires 0 < |left.entries| <= left.max && 0 < |right.entries| <= BLOCK_SLOTS
    requires 0 < i ==> left.max == BLOCK_SLOTS
    requires UpdatedList(d0, nodes[i].entries, d1, left.entries + right.entries, root.depth - i,
                         HiAt(nodes, ex.key, i), ex, extra)
    requires OnlyTouched(d0, d1, Below(d0, root, nodes, ex.key, i) + (extra + multiset{rblk}))
    requires rblk != 0 && rblk in d1 && d1[rblk] == TreeBlock(right)
    requires StoredAt(d1, nodes, ex.key, i, left)
    ensures Cut(d0, root, nodes, i, ex, extra, d1, left, right, rblk)
  {
    hide UpdatedList, OnlyTouched, Below, HiAt, SlotAt;
  }

  lemma LeafCutParts(d0: Disk, root: Node, nodes: seq<Node>, ex: Entry, free0: set<nat>, rblk: nat,
                     left: Node, right: Node, d1: Disk)
    requires Before(d0, root, nodes, ex, free0) && rblk in free0 && left.entries != []
    requires nodes[root.depth].entries != [] && nodes[root.depth].entries[0].key <= ex.key ==>
               left.entries[0].key == nodes[root.depth].entries[0].key
    requires d1 == PutNode(d0, nodes, ex.key, root.depth, left)[rblk := TreeBlock(right)]
    ensures |nodes| == root.depth + 1
    ensures OnlyTouched(d0, d1, Below(d0, root, nodes, ex.key, root.depth) + (Run(ex.phys, ex.len) + multiset{rblk}))
    ensures d1[rblk] == TreeBlock(right)
    ensures StoredAt(d1, nodes, ex.key, root.depth, left)
  {
    hide WfTree, WfList, Owned, Nodes, NodesEntry, Unmapped, UpperBound;
    hide OnlyTouched, OwnBlock, Below, PutNode, Apart, HiAt, SlotAt;
    LeafFacts(d0, root, nodes, ex, free0);
    OwnBlockFacts(d0, root, nodes, root.depth, ex, free0, multiset{rblk});
    PutBoth(d0, nodes, ex.key, root.depth, left, right, rblk);
    TouchedMore(d0, d1, OwnBlock(nodes, ex.key, root.depth) + multiset{rblk},
                Below(d0, root, nodes, ex.key, root.depth) + (Run(ex.phys, ex.len) + multiset{rblk}));
  }

  /** A full leaf is cut: left replaces it, right goes to block rblk. */
  lemma LeafCut(d0: Disk, root: Node, nodes: seq<Node>, ex: Entry, free0: set<nat>, rblk: nat,
                left: Node, right: Node, d1: Disk)
    requires Before(d0, root, nodes, ex, free0) && rblk in free0 && rblk != 0
    requires InsertExtent(nodes[root.depth].entries, nodes[root.depth].max, ex) == None
    requires (left.entries, right.entries) ==
             SplitAt(nodes[root.depth].entries, UpperBound(nodes[root.depth].entries, ex.key), ex)
    requires left.depth == right.depth == 0 && left.max == nodes[root.depth].max && right.max == BLOCK_SLOTS
    requires d1 == PutNode(d0, nodes, ex.key, root.depth, left)[rblk := TreeBlock(right)]
    ensures Cut(d0, root, nodes, root.depth, ex, Run(ex.phys, ex.len), d1, left, right, rblk)
  {
    hide Before, WfList, InsertExtent, Unmapped, UpdatedList, UpperBound, SplitAt, OnlyTouched, Below, PutNode,
        HiAt, SlotAt, Cut, IsChild, Linked;
    LevelShape(d0, root, nodes, root.depth, ex, free0);
    LeafFacts(d0, root, nodes, ex, free0);
    var leaf := nodes[root.depth];
    LeafHalves(d0, d1, leaf.entries, leaf.max, ex, HiAt(nodes, ex.key, root.depth));
    LeafCutParts(d0, root, nodes, ex, free0, rblk, left, right, d1);
    assert 0 < |left.entries| <= left.max && 0 < |right.entries| <= BLOCK_SLOTS;
    CutIntro(d0, root, nodes, root.depth, ex, Run(ex.phys, ex.len), d1, left, right, rblk);
  }

  // ---------- the index levels ----------

  lemma UpperBoundAt(disk: Disk, d: nat, es: seq<Entry>, hi: nat, k: nat, p: nat)
    requires WfList(disk, d, es, hi) && 0 < p <= |es| && es[p - 1].key <= k
    requires p < |es| ==> k < es[p].key
    ensures UpperBound(es, k) == p
  {
    UpperBoundSplits(es, k);
    var u := UpperBound(es, k);
    if p < u - 1 {
      SortedKeys(disk, d, es, hi, p, u - 1);
    }
  }

  /** The slots of level i once the right half of level i + 1 has been entered. */
  function WithRight(es: seq<Entry>, right: Node, rblk: nat): seq<Entry>
    requires right.entries != []
  {
    PutAt(es, UpperBound(es, right.entries[0].key), Entry(right.entries[0].key, 0, rblk))
  }

  /** What level i above the leaf knows before anything happens below it. */
  lemma IndexFacts(d0: Disk, root: Node, nodes: seq<Node>, i: nat, ex: Entry, free0: set<nat>, s: multiset<nat>)
    requires Before(d0, root, nodes, ex, free0) && i < root.depth && s <= multiset(free0)
    ensures i + 1 < |nodes| && Linked(d0, nodes, ex.key, i)
    ensures var es, d := nodes[i].entries, root.depth - i;
            && nodes[i].depth == d && es != []
            && WfList(d0, d, es, HiAt(nodes, ex.key, i)) && Unmapped(Flat(d0, d, es), ex)
            && Once(Owned(d0, d, es)) && Apart(s, Owned(d0, d, es))
  {
    hide WfList, Owned, Nodes, Flat, Unmapped;
    SlotOwned(d0, root, nodes, ex.key, i);
    PathFits(d0, root, nodes, i, ex);
    OwnedSubset(d0, nodes[i], root, multiset(free0), s);
  }

  /** A cut child gives its parent one more slot, right behind the old one. */
  lemma IndexCombined(d0: Disk, root: Node, nodes: seq<Node>, i: nat, ex: Entry, free0: set<nat>,
                      extra: multiset<nat>, d1: Disk, left: Node, right: Node, rblk: nat)
    requires Before(d0, root, nodes, ex, free0) && i < root.depth
    requires extra + multiset{rblk} <= multiset(free0)
    requires Cut(d0, root, nodes, i + 1, ex, extra, d1, left, right, rblk) && right.entries != []
    ensures var es := nodes[i].entries;
            var n := WithRight(es, right, rblk);
            && UpdatedList(d0, es, d1, n, root.depth - i, HiAt(nodes, ex.key, i), ex, extra + multiset{rblk})
            && OnlyTouched(d0, d1, Nodes(d0, root.depth - i, es) + (extra + multiset{rblk}))
            && es != [] && n[0].key == es[0].key && nodes[i].depth == root.depth - i
  {
    hide Before, WfList, Owned, Nodes, NodesEntry, Flat, UpdatedList, OnlyTouched, Unmapped, Once, Apart, UpperBound;
    IndexFacts(d0, root, nodes, i, ex, free0, extra + multiset{rblk});
    var l, d, es := ex.key, root.depth - i, nodes[i].entries;
    var c, hi := Pick(es, l), HiAt(nodes, l, i);
    var r := Entry(right.entries[0].key, 0, rblk);
    NewKey(d0, d1, es, c, d, hi, nodes[i + 1].entries, left, right, ex, extra);
    LiftTwo(d0, d1, d, es, c, nodes[i + 1], left, right, r, hi, ex, extra);
    PutBehind(es, c, r);
    SlotNodes(d0, d, es, c);
    TouchedMore(d0, d1, NodesEntry(d0, d, es[c]) + (extra + multiset{rblk}), Nodes(d0, d,
        es) + (extra + multiset{rblk}));
  }

  lemma PutBehind(es: seq<Entry>, c: nat, r: Entry)
    requires c < |es|
    ensures PutAt(es, c + 1, r) == es[..c] + [es[c], r] + es[c + 1..]
    ensures PutAt(es, c + 1, r)[0] == es[0]
  {
  }

  /** The key of the right half falls between the slot it was cut from and the next one. */
  lemma NewKey(d0: Disk, d1: Disk, es: seq<Entry>, c: nat, d: nat, hi: nat, o: seq<Entry>,
               left: Node, right: Node, ex: Entry, extra: multiset<nat>)
    requires 0 < d && WfList(d0, d, es, hi) && c < |es| && IsChild(d1, d, es[c], left) && right.entries != []
    requires UpdatedList(d0, o, d1, left.entries + right.entries, d - 1, NextKey(es[c + 1..], hi), ex, extra)
    ensures UpperBound(es, right.entries[0].key) == c + 1
  {
    hide WfList, Flat, Owned;
    var h := NextKey(es[c + 1..], hi);
    WfAppend(d1, d - 1, left.entries, right.entries, h);
    BoundedKeys(d1, d - 1, left.entries, right.entries[0].key);
    BoundedKeys(d1, d - 1, right.entries, h);
    UpperBoundAt(d0, d, es, hi, right.entries[0].key, c + 1);
  }

  lemma OwnedSubset(d0: Disk, n: Node, root: Node, free: multiset<nat>, s: multiset<nat>)
    requires WfTree(d0, root) && TreeOwned(d0, n) <= TreeOwned(d0, root)
    requires Apart(free, TreeOwned(d0, root)) && s <= free
    ensures Once(TreeOwned(d0, n)) && Apart(s, TreeOwned(d0, n)) && Apart(s, TreeOwned(d0, root))
  {
    forall b
      ensures !(b in s && b in TreeOwned(d0, n)) && !(b in s && b in TreeOwned(d0, root))
    {
      if b in s {
        assert b in free;
      }
    }
  }

  /** Rewriting the block of level i, and possibly a fresh one, keeps what level i has taken in. */
  lemma LevelWritten(d0: Disk, root: Node, nodes: seq<Node>, i: nat, ex: Entry, free0: set<nat>,
                     extra: multiset<nat>, d1: Disk, d2: Disk, slots: seq<Entry>, added: multiset<nat>)
    requires Before(d0, root, nodes, ex, free0) && i < root.depth
    requires extra + added <= multiset(free0) && Once(extra + added)
    requires UpdatedList(d0, nodes[i].entries, d1, slots, root.depth - i, HiAt(nodes, ex.key, i), ex, extra)
    requires OnlyTouched(d0, d1, Nodes(d0, root.depth - i, nodes[i].entries) + extra)
    requires OnlyTouched(d1, d2, OwnBlock(nodes, ex.key, i) + added)
    ensures UpdatedList(d0, nodes[i].entries, d2, slots, root.depth - i, HiAt(nodes, ex.key, i), ex, extra)
    ensures OnlyTouched(d0, d2, Below(d0, root, nodes, ex.key, i) + (extra + added))
  {
    hide WfList, Flat, Nodes, Owned, Before, UpdatedList, Unmapped, Below, OwnBlock, OnlyTouched, HiAt;
    IndexFacts(d0, root, nodes, i, ex, free0, extra + added);
    OwnBlockFacts(d0, root, nodes, i, ex, free0, extra);
    var d, es, own := root.depth - i, nodes[i].entries, OwnBlock(nodes, ex.key, i);
    FreshApart(Owned(d0, d, es), extra, own, added);
    WriteApart(d0, es, d1, d2, slots, d, HiAt(nodes, ex.key, i), ex, extra, own + added);
    TouchedTwice(d0, d1, d2, Nodes(d0, d, es) + extra, own + added, Below(d0, root, nodes, ex.key,
        i) + (extra + added));
  }

  lemma FreshApart(owned: multiset<nat>, extra: multiset<nat>, own: multiset<nat>, added: multiset<nat>)
    requires Apart(extra + added, owned) && Once(extra + added) && Apart(own, owned) && Apart(own, extra)
    ensures Apart(own + added, owned + extra)
  {
    forall b
      ensures !(b in own + added && b in owned + extra)
    {
      assert (extra + added)[b] == extra[b] + added[b];
      assert b in added ==> b in extra + added;
    }
  }

  lemma TouchedTwice(d0: Disk, d1: Disk, d2: Disk, s: multiset<nat>, t: multiset<nat>, u: multiset<nat>)
    requires OnlyTouched(d0, d1, s) && OnlyTouched(d1, d2, t) && s + t <= u + t && t <= u && s <= u
    ensures OnlyTouched(d0, d2, u)
  {
  }

  /** An index node with room takes the new slot, and the level has settled. */
  lemma IndexStays(d0: Disk, root: Node, nodes: seq<Node>, i: nat, ex: Entry, free0: set<nat>,
                   extra: multiset<nat>, d1: Disk, left: Node, right: Node, rblk: nat, n: Node, d2: Disk)
    requires Before(d0, root, nodes, ex, free0) && i < root.depth
    requires extra + multiset{rblk} <= multiset(free0)
    requires Cut(d0, root, nodes, i + 1, ex, extra, d1, left, right, rblk)
    requires |nodes[i].entries| < nodes[i].max && right.entries != []
    requires n == Node(root.depth - i, nodes[i].max, WithRight(nodes[i].entries, right, rblk))
    requires d2 == PutNode(d1, nodes, ex.key, i, n)
    ensures Settled(d0, root, nodes, i, ex, extra + multiset{rblk}, d2, n)
  {
    hide Before, Cut, Settled, UpdatedList, OnlyTouched, PutNode, Below, OwnBlock, HiAt, SlotAt, Nodes, Once,
        UpperBound;
    var all := extra + multiset{rblk};
    LevelShape(d0, root, nodes, i, ex, free0);
    IndexCombined(d0, root, nodes, i, ex, free0, extra, d1, left, right, rblk);
    PutOne(d1, nodes, ex.key, i, n);
    OnceFree(all, free0);
    assert all + multiset{} == all;
    LevelWritten(d0, root, nodes, i, ex, free0, all, d1, d2, n.entries, multiset{});
    SettledIntro(d0, root, nodes, i, ex, all, d2, n);
  }

  lemma OnceFree(s: multiset<nat>, free0: set<nat>)
    requires s <= multiset(free0)
    ensures Once(s)
  {
    forall b: nat
      ensures s[b] <= 1
    {
      assert s[b] <= multiset(free0)[b];
    }
  }

  /** The halves of a full index node around the new slot. */
  function IndexHalves(es: seq<Entry>, right: Node, rblk: nat): (seq<Entry>, seq<Entry>)
    requires right.entries != []
  {
    SplitAt(es, UpperBound(es, right.entries[0].key), Entry(right.entries[0].key, 0, rblk))
  }

  lemma IndexHalvesShape(es: seq<Entry>, right: Node, rblk: nat)
    requires right.entries != [] && es != []
    ensures var h := IndexHalves(es, right, rblk);
            && h.0 + h.1 == WithRight(es, right, rblk) && 0 < |h.0| <= |es| && 0 < |h.1| <= |es|
            && h.0[0] == WithRight(es, right, rblk)[0]
  {
    SplitAtWhole(es, UpperBound(es, right.entries[0].key), Entry(right.entries[0].key, 0, rblk));
  }

  lemma IndexCutParts(d0: Disk, root: Node, nodes: seq<Node>, i: nat, ex: Entry, free0: set<nat>, all: multiset<nat>,
                      d1: Disk, slots: seq<Entry>, left: Node, right: Node, nblk: nat, d2: Disk)
    requires Before(d0, root, nodes, ex, free0) && i < root.depth
    requires all + multiset{nblk} <= multiset(free0) && d2 == PutNode(d1, nodes, ex.key, i,
        left)[nblk := TreeBlock(right)]
    requires UpdatedList(d0, nodes[i].entries, d1, slots, root.depth - i, HiAt(nodes, ex.key, i), ex, all)
    requires OnlyTouched(d0, d1, Nodes(d0, root.depth - i, nodes[i].entries) + all)
    requires slots == left.entries + right.entries && left.entries != []
    requires nodes[i].entries != [] && left.entries[0].key == nodes[i].entries[0].key
    ensures |nodes| == root.depth + 1
    ensures UpdatedList(d0, nodes[i].entries, d2, slots, root.depth - i, HiAt(nodes, ex.key, i), ex, all)
    ensures OnlyTouched(d0, d2, Below(d0, root, nodes, ex.key, i) + (all + multiset{nblk}))
    ensures d2[nblk] == TreeBlock(right)
    ensures StoredAt(d2, nodes, ex.key, i, left)
  {
    hide Before, UpdatedList, OnlyTouched, PutNode, Below, OwnBlock, HiAt, SlotAt, Nodes, Once, Apart, Pick, UpperBound;
    LevelShape(d0, root, nodes, i, ex, free0);
    OwnBlockFacts(d0, root, nodes, i, ex, free0, multiset{nblk});
    PutBoth(d1, nodes, ex.key, i, left, right, nblk);
    OnceFree(all + multiset{nblk}, free0);
    LevelWritten(d0, root, nodes, i, ex, free0, all, d1, d2, slots, multiset{nblk});
  }

  /** A full index node is cut in its turn: left2 replaces it, right2 goes to block nblk. */
  lemma IndexCut(d0: Disk, root: Node, nodes: seq<Node>, i: nat, ex: Entry, free0: set<nat>, extra: multiset<nat>,
                 d1: Disk, left: Node, right: Node, rblk: nat, nblk: nat, left2: Node, right2: Node, d2: Disk)
    requires Before(d0, root, nodes, ex, free0) && i < root.depth
    requires extra + multiset{rblk} + multiset{nblk} <= multiset(free0) && nblk != 0
    requires Cut(d0, root, nodes, i + 1, ex, extra, d1, left, right, rblk) && right.entries != []
    requires (left2.entries, right2.entries) == IndexHalves(nodes[i].entries, right, rblk)
    requires left2.depth == right2.depth == root.depth - i && left2.max == nodes[i].max && right2.max == BLOCK_SLOTS
    requires d2 == PutNode(d1, nodes, ex.key, i, left2)[nblk := TreeBlock(right2)]
    ensures Cut(d0, root, nodes, i, ex, extra + multiset{rblk}, d2, left2, right2, nblk)
  {
    hide Before, Cut, UpdatedList, OnlyTouched, WithRight, IndexHalves, PutNode, Below, HiAt, SlotAt, Nodes;
    LevelShape(d0, root, nodes, i, ex, free0);
    IndexCombined(d0, root, nodes, i, ex, free0, extra, d1, left, right, rblk);
    IndexHalvesShape(nodes[i].entries, right, rblk);
    IndexCutParts(d0, root, nodes, i, ex, free0, extra + multiset{rblk}, d1,
                  WithRight(nodes[i].entries, right, rblk), left2, right2, nblk, d2);
    CutIntro(d0, root, nodes, i, ex, extra + multiset{rblk}, d2, left2, right2, nblk);
  }

  // ---------- the finished tree ----------

  lemma OnceTogether(a: multiset<nat>, free0: set<nat>, s: set<nat>)
    requires Once(a) && Apart(multiset(free0), a) && s <= free0
    ensures Once(a + multiset(s))
  {
    forall b: nat
      ensures (a + multiset(s))[b] <= 1
    {
      assert b in multiset(free0) <==> b in free0;
      assert b in s ==> b in free0;
    }
  }

  lemma TakenFacts(d0: Disk, root: Node, nodes: seq<Node>, ex: Entry, free0: set<nat>, free1: set<nat>)
    requires Before(d0, root, nodes, ex, free0) && free1 <= free0
    ensures Apart(multiset(free0 - free1), TreeOwned(d0, root))
    ensures Once(TreeOwned(d0, root) + multiset(free0 - free1))
    ensures WfTree(d0, root) && |nodes| > 0 && nodes[0] == root
  {
    ApartSubset(multiset(free0 - free1), multiset(free0), TreeOwned(d0, root));
    OnceTogether(TreeOwned(d0, root), free0, free0 - free1);
  }

  lemma MappedIntro(d0: Disk, root: Node, free0: set<nat>, free1: set<nat>, ex: Entry, d1: Disk, r: Node,
      all: multiset<nat>)
    requires all == multiset(free0 - free1) && free1 <= free0 && RunSet(ex.phys, ex.len) <= free0 - free1
    requires r.max == ROOT_SLOTS && r.depth <= MAX_DEPTH && 0 < |r.entries| <= r.max
    requires WfList(d1, r.depth, r.entries, LBLOCKS)
    requires IsUpdate(Flat(d0, root.depth, root.entries), Flat(d1, r.depth, r.entries), ex)
    requires TreeOwned(d1, r) == TreeOwned(d0, root) + all && Once(TreeOwned(d0, root) + all)
    requires OnlyTouched(d0, d1, Nodes(d0, root.depth, root.entries) + all)
    ensures Mapped(d0, root, free0, d1, r, free1, ex)
  {
    hide WfList, Flat, IsUpdate, Nodes, OnlyTouched, Owned;
  }

  lemma SettledRoot(d0: Disk, root: Node, nodes: seq<Node>, ex: Entry, extra: multiset<nat>, d1: Disk, n: Node)
    requires |nodes| > 0 && nodes[0] == root && WfTree(d0, root)
    requires Settled(d0, root, nodes, 0, ex, extra, d1, n)
    ensures n.max == ROOT_SLOTS && n.depth == root.depth && 0 < |n.entries| <= n.max
    ensures UpdatedList(d0, root.entries, d1, n.entries, root.depth, LBLOCKS, ex, extra)
    ensures OnlyTouched(d0, d1, Nodes(d0, root.depth, root.entries) + extra)
  {
  }

  lemma SettledPath(d0: Disk, root: Node, nodes: seq<Node>, i: nat, ex: Entry, free0: set<nat>, extra: multiset<nat>,
                    d1: Disk, n: Node)
    requires Before(d0, root, nodes, ex, free0) && 0 < i <= root.depth && Apart(extra, TreeOwned(d0, root))
    requires Settled(d0, root, nodes, i, ex, extra, d1, n)
    ensures UpdatedList(d0, root.entries, d1, root.entries, root.depth, LBLOCKS, ex, extra)
    ensures OnlyTouched(d0, d1, Nodes(d0, root.depth, root.entries) + extra)
  {
    hide Once, Apart, WfTree, PathTo, OnlyTouched, UpdatedList, NodesEntry, Fits, HiAt;
    LiftPath(d0, d1, root, nodes, i, n, ex, extra);
  }

  /** Once some level has settled, the tree as a whole maps the run. */
  lemma Finish(d0: Disk, root: Node, nodes: seq<Node>, i: nat, ex: Entry, free0: set<nat>, free1: set<nat>,
               d1: Disk, n: Node)
    requires Before(d0, root, nodes, ex, free0) && i <= root.depth
    requires free1 <= free0 && RunSet(ex.phys, ex.len) <= free0 - free1
    requires Settled(d0, root, nodes, i, ex, multiset(free0 - free1), d1, n)
    ensures Mapped(d0, root, free0, d1, if i == 0 then n else root, free1, ex)
  {
    hide Before, Settled, Once, Apart, OnlyTouched, Nodes, Owned, Flat, Mapped, UpdatedList;
    var extra := multiset(free0 - free1);
    var r := if i == 0 then n else root;
    TakenFacts(d0, root, nodes, ex, free0, free1);
    LevelShape(d0, root, nodes, 0, ex, free0);
    if i == 0 {
      SettledRoot(d0, root, nodes, ex, extra, d1, n);
    } else {
      SettledPath(d0, root, nodes, i, ex, free0, extra, d1, n);
    }
    UpdatedParts(d0, root.entries, d1, r.entries, root.depth, LBLOCKS, ex, extra);
    MappedIntro(d0, root, free0, free1, ex, d1, r, extra);
  }

  lemma UpdatedParts(d0: Disk, o: seq<Entry>, d1: Disk, n: seq<Entry>, d: nat, hi: nat, ex: Entry, extra: multiset<nat>)
    requires UpdatedList(d0, o, d1, n, d, hi, ex, extra)
    ensures WfList(d1, d, n, hi) && IsUpdate(Flat(d0, d, o), Flat(d1, d, n), ex)
    ensures Owned(d1, d, n) == Owned(d0, d, o) + extra
  {
  }

  lemma ApartSubset(s: multiset<nat>, t: multiset<nat>, u: multiset<nat>)
    requires s <= t && Apart(t, u)
    ensures Apart(s, u)
  {
    forall b | b in s
      ensures b in t
    {
    }
  }

  /** A root that has been cut moves to block oblk and becomes an index of its two halves. */
  lemma Grow(d0: Disk, root: Node, nodes: seq<Node>, ex: Entry, free0: set<nat>, free1: set<nat>, extra: multiset<nat>,
             d1: Disk, left: Node, right: Node, rblk: nat, oblk: nat)
    requires Before(d0, root, nodes, ex, free0) && root.depth < MAX_DEPTH
    requires free1 <= free0 && RunSet(ex.phys, ex.len) <= free0 - free1
    requires extra + multiset{rblk} + multiset{oblk} == multiset(free0 - free1) && oblk != 0
    requires Cut(d0, root, nodes, 0, ex, extra, d1, left, right, rblk)
    ensures var e, r := Entry(left.entries[0].key, 0, oblk), Entry(right.entries[0].key, 0, rblk);
            Mapped(d0, root, free0, d1[oblk := TreeBlock(Node(root.depth, BLOCK_SLOTS, left.entries))],
                   Node(root.depth + 1, ROOT_SLOTS, [e, r]), free1, ex)
  {
    hide Before, Once, Apart, WfList, OnlyTouched, Nodes, IsUpdate, Owned, Flat, Mapped;
    var D := root.depth;
    var e, r := Entry(left.entries[0].key, 0, oblk), Entry(right.entries[0].key, 0, rblk);
    var moved := Node(D, BLOCK_SLOTS, left.entries);
    var d2 := d1[oblk := TreeBlock(moved)];
    var all := multiset(free0 - free1);
    TakenFacts(d0, root, nodes, ex, free0, free1);
    GrownSlots(d0, root, nodes, ex, extra, d1, left, right, rblk, oblk, all);
    MappedIntro(d0, root, free0, free1, ex, d2, Node(D + 1, ROOT_SLOTS, [e, r]), all);
  }

  lemma GrownSlots(d0: Disk, root: Node, nodes: seq<Node>, ex: Entry, extra: multiset<nat>,
                   d1: Disk, left: Node, right: Node, rblk: nat, oblk: nat, all: multiset<nat>)
    requires |nodes| > 0 && nodes[0] == root && root.max == ROOT_SLOTS
    requires all == extra + multiset{rblk} + multiset{oblk} && oblk != 0
    requires Once(TreeOwned(d0, root) + all) && Apart(all, TreeOwned(d0, root))
    requires Cut(d0, root, nodes, 0, ex, extra, d1, left, right, rblk)
    ensures var e, r := Entry(left.entries[0].key, 0, oblk), Entry(right.entries[0].key, 0, rblk);
            var d2 := d1[oblk := TreeBlock(Node(root.depth, BLOCK_SLOTS, left.entries))];
            && WfList(d2, root.depth + 1, [e, r], LBLOCKS)
            && IsUpdate(Flat(d0, root.depth, root.entries), Flat(d2, root.depth + 1, [e, r]), ex)
            && Owned(d2, root.depth + 1, [e, r]) == TreeOwned(d0, root) + all
            && OnlyTouched(d0, d2, Nodes(d0, root.depth, root.entries) + all)
  {
    hide WfList, Owned, Flat, Nodes, IsUpdate, Once, Apart, OnlyTouched, UpdatedList;
    var D := root.depth;
    var e, r := Entry(left.entries[0].key, 0, oblk), Entry(right.entries[0].key, 0, rblk);
    var moved := Node(D, BLOCK_SLOTS, left.entries);
    var d2 := d1[oblk := TreeBlock(moved)];
    GrowFresh(TreeOwned(d0, root), extra, rblk, oblk, all);
    GrowTouched(d0, d1, Nodes(d0, D, root.entries), extra, rblk, oblk, moved);
    WriteApart(d0, root.entries, d1, d2, left.entries + right.entries, D, LBLOCKS, ex, extra, multiset{oblk});
    UpdatedParts(d0, root.entries, d2, left.entries + right.entries, D, LBLOCKS, ex, extra);
    TwoChildren(d2, D + 1, e, moved, r, right, LBLOCKS);
  }

  lemma GrowTouched(d0: Disk, d1: Disk, nodes: multiset<nat>, extra: multiset<nat>, rblk: nat, oblk: nat, n: Node)
    requires OnlyTouched(d0, d1, nodes + (extra + multiset{rblk}))
    ensures OnlyTouched(d1, d1[oblk := TreeBlock(n)], multiset{oblk})
    ensures OnlyTouched(d0, d1[oblk := TreeBlock(n)], nodes + (extra + multiset{rblk} + multiset{oblk}))
  {
  }

  lemma GrowFresh(owned: multiset<nat>, extra: multiset<nat>, rblk: nat, oblk: nat, all: multiset<nat>)
    requires all == extra + multiset{rblk} + multiset{oblk} && Once(owned + all) && Apart(all, owned)
    ensures rblk != oblk && Apart(multiset{oblk}, owned + extra)
  {
    assert (owned + all)[oblk] <= 1;
    assert oblk in all;
  }

  // ---------- which runs fit ----------

  lemma SameSlot(disk: Disk, d: nat, es: seq<Entry>, hi: nat, l: nat, x: nat)
    requires es != [] && WfList(disk, d, es, hi) && l <= x < NextKey(es[Pick(es, l) + 1..], hi)
    ensures Pick(es, x) == Pick(es, l)
  {
    UpperBoundSplits(es, l);
    UpperBoundSplits(es, x);
    var v := UpperBound(es, x);
    if v > Pick(es, l) + 2 {
      SortedKeys(disk, d, es, hi, Pick(es, l) + 1, v - 1);
    }
  }

  lemma {:induction false} HiShrinks(disk: Disk, root: Node, l: nat, nodes: seq<Node>, i: nat, j: nat)
    requires WfTree(disk, root) && PathTo(disk, root, l, nodes) && i <= j <= root.depth
    ensures HiAt(nodes, l, j) <= HiAt(nodes, l, i)
  {
    hide WfList, Flat, Nodes, Owned;
    if i < j {
      HiShrinks(disk, root, l, nodes, i, j - 1);
      PathLevel(disk, root, l, nodes, j - 1);
      assert Linked(disk, nodes, l, j - 1);
      PickDown(disk, nodes[j - 1].depth, nodes[j - 1].entries, HiAt(nodes, l, j - 1), l, nodes[j]);
    }
  }

  /** The path to l is also the path to what follows it, up to where its leaf ends. */
  lemma SamePath(disk: Disk, root: Node, l: nat, nodes: seq<Node>, x: nat)
    requires WfTree(disk, root) && PathTo(disk, root, l, nodes) && l <= x < HiAt(nodes, l, root.depth)
    ensures TreeLookup(disk, root, x) == Lookup(nodes[root.depth].entries, x)
  {
    hide WfList, Flat, Nodes, Owned, Pick;
    forall i | 0 <= i < root.depth
      ensures Linked(disk, nodes, x, i)
    {
      assert Linked(disk, nodes, l, i);
      PathLevel(disk, root, l, nodes, i);
      HiShrinks(disk, root, l, nodes, i + 1, root.depth);
      SameSlot(disk, nodes[i].depth, nodes[i].entries, HiAt(nodes, l, i), l, x);
    }
    PathLevel(disk, root, x, nodes, root.depth);
    FlatLeaf(disk, nodes[root.depth].entries);
  }

  /** The allocator decides how long a new run is, and the code looks at its first block only.  The leaf that
      takes the run in stays well formed within its bounds exactly when no block of the run was mapped
      anywhere in the tree. */
  lemma RunExactly(disk: Disk, root: Node, nodes: seq<Node>, ex: Entry)
    requires WfTree(disk, root) && PathTo(disk, root, ex.key, nodes) && ValidExtent(ex, LBLOCKS)
    ensures var leaf, hi := nodes[root.depth], HiAt(nodes, ex.key, root.depth);
            match InsertExtent(leaf.entries, leaf.max, ex)
            case Some(r) => WfList(disk, 0, r, hi) <==> Unmapped(Flat(disk, root.depth, root.entries), ex)
            case None => true
  {
    hide WfList, Flat, Nodes, Owned, InsertExtent, Unmapped;
    var leaf, hi := nodes[root.depth], HiAt(nodes, ex.key, root.depth);
    PathLevel(disk, root, ex.key, nodes, root.depth);
    FlatLeaf(disk, leaf.entries);
    match InsertExtent(leaf.entries, leaf.max, ex)
    case None =>
    case Some(r) =>
      if Unmapped(Flat(disk, root.depth, root.entries), ex) {
        PathFits(disk, root, nodes, root.depth, ex);
        InsertedWf(disk, leaf.entries, leaf.max, ex, hi, r);
      }
      if WfList(disk, 0, r, hi) {
        InsertedBelow(disk, leaf.entries, leaf.max, ex, hi, r);
        UnmappedHere(disk, root, nodes, ex);
      }
  }

  lemma InsertedWf(disk: Disk, es: seq<Entry>, max: nat, ex: Entry, hi: nat, r: seq<Entry>)
    requires WfList(disk, 0, es, hi) && ValidExtent(ex, hi) && Unmapped(es, ex) && InsertExtent(es, max, ex) == Some(r)
    ensures WfList(disk, 0, r, hi)
  {
    hide WfList, Unmapped, InsertExtent;
    InsertExactly(disk, es, max, ex, hi);
  }

  /** A list that has taken a run in within its bound has room for the run below that bound. */
  lemma InsertedBelow(disk: Disk, es: seq<Entry>, max: nat, ex: Entry, hi: nat, r: seq<Entry>)
    requires WfList(disk, 0, es, hi) && ValidExtent(ex, LBLOCKS) && InsertExtent(es, max, ex) == Some(r)
    requires WfList(disk, 0, r, hi)
    ensures ValidExtent(ex, hi) && Unmapped(es, ex)
  {
    hide WfList, Unmapped, UpperBound;
    var p := UpperBound(es, ex.key);
    if p > 0 && Mergeable(es[p - 1], ex) {
      var m := Join(es[p - 1], ex);
      if p < |es| && Mergeable(m, es[p]) {
        Wf3(disk, es[..p - 1], Join(m, es[p]), es[p + 1..], hi);
        EntryEnds(disk, es[p + 1..], hi);
      } else {
        Wf3(disk, es[..p - 1], m, es[p..], hi);
        EntryEnds(disk, es[p..], hi);
      }
    } else if p < |es| && Mergeable(ex, es[p]) {
      Wf3(disk, es[..p], Join(ex, es[p]), es[p + 1..], hi);
      EntryEnds(disk, es[p + 1..], hi);
    } else {
      Wf3(disk, es[..p], ex, es[p..], hi);
      EntryEnds(disk, es[p..], hi);
    }
    InsertExactly(disk, es, max, ex, hi);
  }

  lemma EntryEnds(disk: Disk, es: seq<Entry>, hi: nat)
    requires WfList(disk, 0, es, hi)
    ensures NextKey(es, hi) <= hi
  {
    BoundedKeys(disk, 0, es, hi);
  }

  lemma UnmappedHere(disk: Disk, root: Node, nodes: seq<Node>, ex: Entry)
    requires WfTree(disk, root) && PathTo(disk, root, ex.key, nodes)
    requires ValidExtent(ex, HiAt(nodes, ex.key, root.depth)) && Unmapped(nodes[root.depth].entries, ex)
    ensures Unmapped(Flat(disk, root.depth, root.entries), ex)
  {
    hide WfTree, PathTo, Flat;
    forall x | Covers(ex, x)
      ensures Lookup(Flat(disk, root.depth, root.entries), x) == None
    {
      SamePath(disk, root, ex.key, nodes, x);
    }
  }
}
