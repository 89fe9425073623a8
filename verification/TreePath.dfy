/**
 The path from the root to the leaf of a logical block, what every node on it knows about that block,
 and how an update of one of its nodes becomes an update of the whole tree.
 */
module TreePath {
  import opened Wrappers
  import opened Runs
  import opened ExtentTree
  import opened LeafInsert
  import opened TreeUpdate

  ghost predicate WfTree(disk: Disk, root: Node) {
    && root.max == ROOT_SLOTS && root.depth <= MAX_DEPTH
    && WfNode(disk, root, LBLOCKS)
    && (0 < root.depth ==> root.entries != [])
    && Once(Owned(disk, root.depth, root.entries))
  }

  function TreeOwned(disk: Disk, root: Node): multiset<nat> {
    Owned(disk, root.depth, root.entries)
  }

  /** The map the tree stands for. */
  function TreeLookup(disk: Disk, root: Node, l: nat): Option<nat> {
    Lookup(Flat(disk, root.depth, root.entries), l)
  }

  function SlotAt(nodes: seq<Node>, l: nat, i: nat): Entry
    requires i < |nodes| && nodes[i].entries != []
  {
    nodes[i].entries[Pick(nodes[i].entries, l)]
  }

  ghost predicate Linked(disk: Disk, nodes: seq<Node>, l: nat, i: nat)
    requires i + 1 < |nodes|
  {
    nodes[i].entries != [] && IsChild(disk, nodes[i].depth, SlotAt(nodes, l, i), nodes[i + 1])
  }

  /** nodes are the nodes visited on the way to l, the root first. */
  ghost predicate PathTo(disk: Disk, root: Node, l: nat, nodes: seq<Node>) {
    && |nodes| == root.depth + 1
    && nodes[0] == root
    && forall i :: 0 <= i < root.depth ==> Linked(disk, nodes, l, i)
  }

  /** The upper bound of what the i-th node on the path may hold. */
  function HiAt(nodes: seq<Node>, l: nat, i: nat): nat
    requires i < |nodes|
  {
    if i == 0 then LBLOCKS
    else if nodes[i - 1].entries == [] then 0
    else NextKey(nodes[i - 1].entries[Pick(nodes[i - 1].entries, l) + 1..], HiAt(nodes, l, i - 1))
  }

  /** What a node on the path knows about block l. */
  ghost predicate Level(disk: Disk, root: Node, l: nat, nodes: seq<Node>, i: nat)
    requires i < |nodes|
  {
    && nodes[i].depth + i == root.depth
    && WfList(disk, nodes[i].depth, nodes[i].entries, HiAt(nodes, l, i))
    && TreeOwned(disk, nodes[i]) <= TreeOwned(disk, root)
    && TreeLookup(disk, root, l) == TreeLookup(disk, nodes[i], l)
    && (root.entries != [] && root.entries[0].key <= l ==> nodes[i].entries != [] && nodes[i].entries[0].key <= l)
  }

  lemma {:induction false} PathLevel(disk: Disk, root: Node, l: nat, nodes: seq<Node>, i: nat)
    requires WfTree(disk, root) && PathTo(disk, root, l, nodes) && i <= root.depth
    ensures Level(disk, root, l, nodes, i)
  {
    hide WfList, Flat, Nodes, Owned, Lookup;
    if i > 0 {
      PathLevel(disk, root, l, nodes, i - 1);
      assert Linked(disk, nodes, l, i - 1);
      LevelStep(disk, root, l, nodes, i - 1);
    }
  }

  lemma LevelStep(disk: Disk, root: Node, l: nat, nodes: seq<Node>, i: nat)
    requires i + 1 < |nodes| && Level(disk, root, l, nodes, i) && Linked(disk, nodes, l, i)
    ensures Level(disk, root, l, nodes, i + 1)
    ensures multiset{SlotAt(nodes, l, i).phys} + TreeOwned(disk, nodes[i + 1]) <= TreeOwned(disk, nodes[i])
  {
    hide WfList, Flat, Nodes, Owned;
    PickDown(disk, nodes[i].depth, nodes[i].entries, HiAt(nodes, l, i), l, nodes[i + 1]);
  }

  /** The run of ex, unmapped in a node, is unmapped in the child picked for its first block,
      and ends before the next sibling starts. */
  lemma UnmappedDown(disk: Disk, d: nat, es: seq<Entry>, hi: nat, n: Node, ex: Entry)
    requires 0 < d && es != [] && WfList(disk, d, es, hi) && IsChild(disk, d, es[Pick(es, ex.key)], n)
    requires Unmapped(Flat(disk, d, es), ex) && ValidExtent(ex, hi)
    ensures Unmapped(Flat(disk, d - 1, n.entries), ex)
    ensures ValidExtent(ex, NextKey(es[Pick(es, ex.key) + 1..], hi))
  {
    hide WfList, Flat;
    UpperBoundSplits(es, ex.key);
    var c := Pick(es, ex.key);
    var a, e, b := es[..c], es[c], es[c + 1..];
    Slice(es, c);
    WfParts(disk, d, a, [e], b, hi);
    ChildEntry(disk, d, e, n, NextKey(b, hi));
    FlatParts(disk, d, a, [e], b);
    var fa, fm, fb := Flat(disk, d, a), Flat(disk, d, [e]), Flat(disk, d, b);
    forall x | Covers(ex, x)
      ensures Lookup(fm, x) == None && Lookup(fb, x) == None
    {
      LookupAppend(fa + fm, fb, x);
      LookupAppend(fa, fm, x);
    }
    if b != [] {
      assert b[0] == es[c + 1];
      FlatRange(disk, d, b, hi, 0);
      SortedKeys(disk, d, es, hi, c, c + 1);
      assert ex.key < b[0].key;
      assert !Covers(ex, b[0].key);
    }
  }

  ghost predicate Fits(disk: Disk, n: Node, ex: Entry, hi: nat) {
    Unmapped(Flat(disk, n.depth, n.entries), ex) && ValidExtent(ex, hi)
  }

  lemma {:induction false} PathFits(disk: Disk, root: Node, nodes: seq<Node>, i: nat, ex: Entry)
    requires WfTree(disk, root) && PathTo(disk, root, ex.key, nodes) && i <= root.depth
    requires Fits(disk, root, ex, LBLOCKS)
    ensures Fits(disk, nodes[i], ex, HiAt(nodes, ex.key, i))
  {
    if i > 0 {
      PathFits(disk, root, nodes, i - 1, ex);
      PathLevel(disk, root, ex.key, nodes, i - 1);
      assert Linked(disk, nodes, ex.key, i - 1);
      FitsStep(disk, root, nodes, i - 1, ex);
    }
  }

  lemma FitsStep(disk: Disk, root: Node, nodes: seq<Node>, i: nat, ex: Entry)
    requires i + 1 < |nodes| && Level(disk, root, ex.key, nodes, i) && Linked(disk, nodes, ex.key, i)
    requires Fits(disk, nodes[i], ex, HiAt(nodes, ex.key, i))
    ensures Fits(disk, nodes[i + 1], ex, HiAt(nodes, ex.key, i + 1))
  {
    hide WfList, Flat, Nodes, Owned, Unmapped;
    UnmappedDown(disk, nodes[i].depth, nodes[i].entries, HiAt(nodes, ex.key, i), nodes[i + 1], ex);
  }

  /** Writes to blocks that the new subtree does not own leave the update in place. */
  lemma WriteApart(d0: Disk, o: seq<Entry>, d1: Disk, d2: Disk, n: seq<Entry>, d: nat, hi: nat,
                   ex: Entry, extra: multiset<nat>, written: multiset<nat>)
    requires UpdatedList(d0, o, d1, n, d, hi, ex, extra)
    requires OnlyTouched(d1, d2, written) && Apart(written, Owned(d0, d, o) + extra)
    ensures UpdatedList(d0, o, d2, n, d, hi, ex, extra)
  {
    hide WfList, Flat, IsUpdate;
    forall x | x in Nodes(d1, d, n)
      ensures x !in written
    {
      assert x in Owned(d1, d, n);
    }
    UpdatedFrame(d0, o, d1, d2, n, d, hi, ex, extra);
  }

  lemma OnceApart(whole: multiset<nat>, x: nat, part: multiset<nat>)
    requires Once(whole) && multiset{x} + part <= whole
    ensures x !in part
  {
    assert whole[x] >= (multiset{x} + part)[x] == 1 + part[x];
  }

  /** The tree blocks reached through the slot picked at level i belong to the node at level i. */
  lemma SlotNodes(disk: Disk, d: nat, es: seq<Entry>, c: nat)
    requires c < |es|
    ensures NodesEntry(disk, d, es[c]) <= Nodes(disk, d, es)
  {
    hide Nodes, NodesEntry;
    Slice(es, c);
    NodesAppend(disk, d, es[..c] + [es[c]], es[c + 1..]);
    NodesAppend(disk, d, es[..c], [es[c]]);
    SingleEntry(disk, d, es[c]);
  }

  lemma TouchedMore(d0: Disk, d1: Disk, s: multiset<nat>, t: multiset<nat>)
    requires OnlyTouched(d0, d1, s) && s <= t
    ensures OnlyTouched(d0, d1, t)
  {
  }

  /** Once the node at level i > 0 has been rewritten in its own block, the whole tree is updated. */
  lemma {:induction false} LiftPath(d0: Disk, d1: Disk, root: Node, nodes: seq<Node>, i: nat, n: Node,
                                    ex: Entry, extra: multiset<nat>)
    requires WfTree(d0, root) && PathTo(d0, root, ex.key, nodes) && 0 < i <= root.depth
    requires Fits(d0, root, ex, LBLOCKS)
    requires Apart(extra, TreeOwned(d0, root))
    requires nodes[i - 1].entries != []
    requires IsChild(d1, root.depth - i + 1, SlotAt(nodes, ex.key, i - 1), n)
    requires UpdatedList(d0, nodes[i].entries, d1, n.entries, root.depth - i, HiAt(nodes, ex.key, i), ex, extra)
    requires OnlyTouched(d0, d1, NodesEntry(d0, root.depth - i + 1, SlotAt(nodes, ex.key, i - 1)) + extra)
    ensures UpdatedList(d0, root.entries, d1, root.entries, root.depth, LBLOCKS, ex, extra)
    ensures OnlyTouched(d0, d1, Nodes(d0, root.depth, root.entries) + extra)
  {
    hide WfList, Flat, Nodes, Owned, NodesEntry, OnlyTouched, Unmapped, IsUpdate;
    var l, d, p := ex.key, root.depth - i + 1, nodes[i - 1];
    var c := Pick(p.entries, l);
    PathLevel(d0, root, l, nodes, i - 1);
    PathFits(d0, root, nodes, i - 1, ex);
    assert Linked(d0, nodes, l, i - 1);
    LiftOne(d0, d1, d, p.entries, c, nodes[i], n, HiAt(nodes, l, i - 1), ex, extra);
    SlotNodes(d0, d, p.entries, c);
    TouchedMore(d0, d1, NodesEntry(d0, d, p.entries[c]) + extra, Nodes(d0, d, p.entries) + extra);
    if i > 1 {
      assert Linked(d0, nodes, l, i - 2);
      PathLevel(d0, root, l, nodes, i - 2);
      LevelStep(d0, root, l, nodes, i - 2);
      var e := SlotAt(nodes, l, i - 2);
      UntouchedAbove(d0, d1, d, e, p, extra, TreeOwned(d0, root));
      LiftPath(d0, d1, root, nodes, i - 1, p, ex, extra);
    }
  }

  /** A change below p does not touch the block p itself is stored in. */
  lemma UntouchedAbove(d0: Disk, d1: Disk, d: nat, e: Entry, p: Node, extra: multiset<nat>, all: multiset<nat>)
    requires IsChild(d0, d + 1, e, p)
    requires multiset{e.phys} + Owned(d0, d, p.entries) <= all && Once(all) && Apart(extra, all)
    requires OnlyTouched(d0, d1, Nodes(d0, d, p.entries) + extra)
    ensures IsChild(d1, d + 1, e, p)
    ensures OnlyTouched(d0, d1, NodesEntry(d0, d + 1, e) + extra)
  {
    hide Flat, Nodes, NodesEntry;
    OnceApart(all, e.phys, Owned(d0, d, p.entries));
    assert e.phys in all;
    ChildEntry(d0, d + 1, e, p, 0);
    SingleEntry(d0, d + 1, e);
    TouchedMore(d0, d1, Nodes(d0, d, p.entries) + extra, NodesEntry(d0, d + 1, e) + extra);
  }
}
