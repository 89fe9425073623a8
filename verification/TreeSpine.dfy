/**
 The shape of a tree that has grown by appending: along its right edge every node's children are heavy,
 the first and the last one excepted.  A tree gets a new level only when its right edge is full from the
 root down, so a deep tree holds very many extents.
 */
module TreeSpine {
  import opened Wrappers
  import opened Runs
  import opened ExtentTree
  import opened LeafInsert
  import opened TreeUpdate
  import opened TreePath

  /** What a closed slot of a node of depth d holds at least: a closed node has one light child at most. */
  function Cap(d: nat): nat {
    if d == 0 then 1 else (BLOCK_SLOTS - 1) * Cap(d - 1)
  }

  ghost predicate Spine(disk: Disk, d: nat, es: seq<Entry>)
    decreases d
  {
    d == 0 || es == [] || (
      && (forall c :: 0 < c < |es| - 1 ==> |FlatEntry(disk, d, es[c])| >= Cap(d))
      && Spine(disk, d - 1, Kids(disk, d, es[|es| - 1])))
  }

  // ---------- framing ----------

  lemma WeightSame(d0: Disk, d1: Disk, d: nat, es: seq<Entry>, c: nat)
    requires c < |es| && Agree(d0, d1, Nodes(d0, d, es))
    ensures FlatEntry(d1, d, es[c]) == FlatEntry(d0, d, es[c])
  {
    hide Flat, Nodes, FlatEntry, NodesEntry;
    SlotNodes(d0, d, es, c);
    SingleEntry(d0, d, es[c]);
    SingleEntry(d1, d, es[c]);
    forall b | b in Nodes(d0, d, [es[c]])
      ensures b in Nodes(d0, d, es)
    {
    }
    Frame(d0, d1, d, [es[c]]);
  }

  lemma {:induction false} SpineFrame(d0: Disk, d1: Disk, d: nat, es: seq<Entry>)
    requires Agree(d0, d1, Nodes(d0, d, es)) && Spine(d0, d, es)
    ensures Spine(d1, d, es)
    decreases d
  {
    hide Flat, Nodes, FlatEntry, NodesEntry, Kids, Agree, Cap;
    if d > 0 && es != [] {
      var last := es[|es| - 1];
      forall c | 0 < c < |es| - 1
        ensures |FlatEntry(d1, d, es[c])| >= Cap(d)
      {
        WeightSame(d0, d1, d, es, c);
      }
      SlotNodes(d0, d, es, |es| - 1);
      AgreeSome(d0, d1, NodesEntry(d0, d, last), Nodes(d0, d, es));
      FrameEntry(d0, d1, d, last);
      SpineFrame(d0, d1, d - 1, Kids(d0, d, last));
    }
  }

  lemma AgreeSome(d0: Disk, d1: Disk, s: multiset<nat>, t: multiset<nat>)
    requires s <= t && Agree(d0, d1, t)
    ensures Agree(d0, d1, s)
  {
  }

  // ---------- the right edge ----------

  /** Every node in the path ends at or before key l: the insertion is at the far right of the tree. */
  ghost predicate KeysUpTo(nodes: seq<Node>, l: nat) {
    forall i :: 0 <= i < |nodes| ==> nodes[i].entries == [] || nodes[i].entries[|nodes[i].entries| - 1].key <= l
  }

  ghost predicate FullFrom(nodes: seq<Node>, i: nat) {
    forall j :: i <= j < |nodes| ==> |nodes[j].entries| == nodes[j].max
  }

  lemma PicksLast(nodes: seq<Node>, l: nat, i: nat)
    requires KeysUpTo(nodes, l) && i < |nodes| && nodes[i].entries != []
    ensures Pick(nodes[i].entries, l) == |nodes[i].entries| - 1
    ensures SlotAt(nodes, l, i) == nodes[i].entries[|nodes[i].entries| - 1]
  {
  }

  lemma {:induction false} SpineDown(disk: Disk, root: Node, l: nat, nodes: seq<Node>, i: nat)
    requires WfTree(disk, root) && PathTo(disk, root, l, nodes) && KeysUpTo(nodes, l) && i <= root.depth
    requires Spine(disk, root.depth, root.entries)
    ensures nodes[i].depth == root.depth - i && Spine(disk, root.depth - i, nodes[i].entries)
  {
    hide WfList, Flat, Nodes, Owned, Pick, Spine, TreeLookup, WfTree;
    PathLevel(disk, root, l, nodes, i);
    if i > 0 {
      SpineDown(disk, root, l, nodes, i - 1);
      assert Linked(disk, nodes, l, i - 1);
      PathLevel(disk, root, l, nodes, i - 1);
      PicksLast(nodes, l, i - 1);
      SpineChild(disk, root.depth - (i - 1), nodes[i - 1].entries, nodes[i]);
    }
  }

  lemma SpineChild(disk: Disk, d: nat, es: seq<Entry>, n: Node)
    requires 0 < d && es != [] && Spine(disk, d, es) && IsChild(disk, d, es[|es| - 1], n)
    ensures Spine(disk, d - 1, n.entries)
  {
    hide FlatEntry;
  }

  lemma {:induction false} SumWeights(disk: Disk, d: nat, es: seq<Entry>, w: nat)
    requires forall c :: 0 <= c < |es| ==> |FlatEntry(disk, d, es[c])| >= w
    ensures |Flat(disk, d, es)| >= |es| * w
  {
    hide FlatEntry;
    if es != [] {
      SumWeights(disk, d, es[1..], w);
      assert |es| * w == (|es| - 1) * w + w;
    }
  }

  /** A node on the right edge that is full, with everything on the edge below it, is heavy. */
  lemma {:induction false} EdgeWeight(disk: Disk, root: Node, l: nat, nodes: seq<Node>, i: nat)
    requires WfTree(disk, root) && PathTo(disk, root, l, nodes) && KeysUpTo(nodes, l) && i <= root.depth
    requires Spine(disk, root.depth, root.entries) && FullFrom(nodes, i) && 2 <= nodes[i].max
    ensures |Flat(disk, root.depth - i, nodes[i].entries)| >= (nodes[i].max - 1) * Cap(root.depth - i)
    decreases root.depth - i
  {
    hide WfList, Flat, Nodes, Owned, Pick, FlatEntry, WfTree, TreeLookup;
    var d, es := root.depth - i, nodes[i].entries;
    PathLevel(disk, root, l, nodes, i);
    SpineDown(disk, root, l, nodes, i);
    if d == 0 {
      FlatLeaf(disk, es);
    } else {
      var last := es[|es| - 1];
      assert Linked(disk, nodes, l, i);
      PicksLast(nodes, l, i);
      EdgeWeight(disk, root, l, nodes, i + 1);
      ChildEntry(disk, d, last, nodes[i + 1], 0);
      SingleEntry(disk, d, last);
      EdgeSum(disk, d, es, Cap(d));
    }
  }

  /** All slots but the first are heavy. */
  lemma EdgeSum(disk: Disk, d: nat, es: seq<Entry>, w: nat)
    requires es != [] && forall c :: 1 <= c < |es| ==> |FlatEntry(disk, d, es[c])| >= w
    ensures |Flat(disk, d, es)| >= (|es| - 1) * w
  {
    hide Flat, FlatEntry;
    forall c | 0 <= c < |es[1..]|
      ensures |FlatEntry(disk, d, es[1..][c])| >= w
    {
      assert es[1..][c] == es[c + 1];
    }
    SumWeights(disk, d, es[1..], w);
    FlatTail(disk, d, es);
  }

  lemma FlatTail(disk: Disk, d: nat, es: seq<Entry>)
    requires es != []
    ensures |Flat(disk, d, es)| >= |Flat(disk, d, es[1..])|
  {
  }

  /** One slot of a node whose siblings to the left have stayed as they were. */
  lemma SpineLevel(d0: Disk, d1: Disk, d: nat, es: seq<Entry>, n: Node, extra: multiset<nat>)
    requires 0 < d && es != [] && Spine(d0, d, es)
    requires Once(Owned(d0, d, es)) && Apart(extra, Owned(d0, d, es))
    requires OnlyTouched(d0, d1, NodesEntry(d0, d, es[|es| - 1]) + extra)
    requires IsChild(d1, d, es[|es| - 1], n) && Spine(d1, d - 1, n.entries)
    ensures Spine(d1, d, es)
  {
    hide Flat, Nodes, Owned, FlatEntry, NodesEntry, Once, Apart, OnlyTouched;
    var a, last := es[..|es| - 1], es[|es| - 1];
    assert es == a + [last] + [];
    SiblingsAgree(d0, d1, d, a, last, [], extra);
    forall c | 0 < c < |es| - 1
      ensures |FlatEntry(d1, d, es[c])| >= Cap(d)
    {
      assert a[c] == es[c];
      WeightSame(d0, d1, d, a, c);
    }
  }

  /** When a node on the right edge has been rewritten in its block and has this shape, the tree has it. */
  lemma {:induction false} SpinePath(d0: Disk, d1: Disk, root: Node, l: nat, nodes: seq<Node>, i: nat, n: Node,
                                     extra: multiset<nat>)
    requires WfTree(d0, root) && PathTo(d0, root, l, nodes) && KeysUpTo(nodes, l) && 0 < i <= root.depth
    requires Spine(d0, root.depth, root.entries) && Apart(extra, TreeOwned(d0, root))
    requires nodes[i - 1].entries != []
    requires IsChild(d1, root.depth - i + 1, SlotAt(nodes, l, i - 1), n) && Spine(d1, root.depth - i, n.entries)
    requires OnlyTouched(d0, d1, NodesEntry(d0, root.depth - i + 1, SlotAt(nodes, l, i - 1)) + extra)
    ensures Spine(d1, root.depth, root.entries)
  {
    hide WfList, Flat, Nodes, Owned, NodesEntry, OnlyTouched, Spine, Pick, Once, Apart;
    var d, p := root.depth - i + 1, nodes[i - 1];
    PathLevel(d0, root, l, nodes, i - 1);
    SpineDown(d0, root, l, nodes, i - 1);
    PicksLast(nodes, l, i - 1);
    PartOfTree(d0, root, p, extra);
    SpineLevel(d0, d1, d, p.entries, n, extra);
    if i > 1 {
      assert Linked(d0, nodes, l, i - 2);
      PathLevel(d0, root, l, nodes, i - 2);
      LevelStep(d0, root, l, nodes, i - 2);
      SlotNodes(d0, d, p.entries, |p.entries| - 1);
      TouchedMore(d0, d1, NodesEntry(d0, d, p.entries[|p.entries| - 1]) + extra, Nodes(d0, d, p.entries) + extra);
      OwnedLess(multiset{SlotAt(nodes, l, i - 2).phys} + TreeOwned(d0, p), TreeOwned(d0, nodes[i - 2]),
                TreeOwned(d0, root));
      UntouchedAbove(d0, d1, d, SlotAt(nodes, l, i - 2), p, extra, TreeOwned(d0, root));
      SpinePath(d0, d1, root, l, nodes, i - 1, p, extra);
    }
  }

  lemma OwnedLess(a: multiset<nat>, b: multiset<nat>, c: multiset<nat>)
    requires a <= b <= c
    ensures a <= c
  {
  }

  lemma PartOfTree(disk: Disk, root: Node, p: Node, extra: multiset<nat>)
    requires WfTree(disk, root) && TreeOwned(disk, p) <= TreeOwned(disk, root) && Apart(extra, TreeOwned(disk, root))
    ensures Once(Owned(disk, p.depth, p.entries)) && Apart(extra, Owned(disk, p.depth, p.entries))
  {
    hide WfList, Flat, Nodes;
    var part, all := TreeOwned(disk, p), TreeOwned(disk, root);
    forall b: nat
      ensures part[b] <= 1 && !(b in extra && b in part)
    {
      assert part[b] <= all[b] <= 1;
    }
  }

  // ---------- a chain of new nodes ----------

  /** n and the nodes below it have one slot each, and those below lie in the blocks of used. */
  ghost predicate ChainAt(disk: Disk, d: nat, n: Node, used: multiset<nat>)
    decreases d
  {
    && n.depth == d && |n.entries| == 1
    && (d > 0 ==>
          && n.entries[0].phys in used && HasChild(disk, d, n.entries[0])
          && ChainAt(disk, d - 1, disk[n.entries[0].phys].node, used))
  }

  lemma {:induction false} ChainSpine(disk: Disk, d: nat, n: Node, used: multiset<nat>)
    requires ChainAt(disk, d, n, used)
    ensures Spine(disk, d, n.entries)
    decreases d
  {
    if d > 0 {
      ChainSpine(disk, d - 1, disk[n.entries[0].phys].node, used);
    }
  }

  lemma {:induction false} ChainFrame(d0: Disk, d1: Disk, d: nat, n: Node, used: multiset<nat>, more: multiset<nat>)
    requires ChainAt(d0, d, n, used) && used <= more
    requires forall b :: b in used ==> (b in d0 <==> b in d1) && (b in d0 ==> d0[b] == d1[b])
    ensures ChainAt(d1, d, n, more)
    decreases d
  {
    if d > 0 {
      ChainFrame(d0, d1, d - 1, d0[n.entries[0].phys].node, used, more);
    }
  }

  /** A node on the right edge takes a chain as one more slot, behind a child that is closed now. */
  lemma SlotAdded(d0: Disk, d1: Disk, d: nat, es: seq<Entry>, e: Entry)
    requires 0 < d && es != [] && Spine(d0, d, es) && Agree(d0, d1, Nodes(d0, d, es))
    requires |FlatEntry(d0, d, es[|es| - 1])| >= Cap(d) && Spine(d1, d - 1, Kids(d1, d, e))
    ensures Spine(d1, d, es + [e])
  {
    hide Flat, Nodes, FlatEntry, Kids;
    forall c | 0 < c < |es|
      ensures |FlatEntry(d1, d, (es + [e])[c])| >= Cap(d)
    {
      WeightSame(d0, d1, d, es, c);
    }
  }
}
