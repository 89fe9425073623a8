/**
 How a change at the bottom of an extent tree reaches the top: the relation between a list of slots
 before and after an insertion below it, and the lemmas that lift it from a child to its parent,
 through a rewritten child, a split child, and a grown root.
 */
module TreeUpdate {
  import opened Wrappers
  import opened Runs
  import opened ExtentTree
  import opened LeafInsert

  /** After inserting the run of ex somewhere below, the slots o on disk d0 have become the slots n on
      disk d1: well formed, the old map overwritten with the run, and owning exactly extra more. */
  ghost predicate UpdatedList(d0: Disk, o: seq<Entry>, d1: Disk, n: seq<Entry>,
                              d: nat, hi: nat, ex: Entry, extra: multiset<nat>)
  {
    && WfList(d1, d, n, hi)
    && IsUpdate(Flat(d0, d, o), Flat(d1, d, n), ex)
    && Owned(d1, d, n) == Owned(d0, d, o) + extra
  }

  /** d0 and d1 differ at most on the blocks in t. */
  ghost predicate OnlyTouched(d0: Disk, d1: Disk, t: multiset<nat>) {
    forall b :: b !in t ==> (b in d0 <==> b in d1) && (b in d0 ==> d0[b] == d1[b])
  }

  lemma FlatParts(disk: Disk, d: nat, a: seq<Entry>, m: seq<Entry>, b: seq<Entry>)
    ensures Flat(disk, d, a + m + b) == Flat(disk, d, a) + Flat(disk, d, m) + Flat(disk, d, b)
  {
    FlatAppend(disk, d, a + m, b);
    FlatAppend(disk, d, a, m);
  }

  lemma OwnedParts(disk: Disk, d: nat, a: seq<Entry>, m: seq<Entry>, b: seq<Entry>)
    ensures Owned(disk, d, a + m + b) == Owned(disk, d, a) + Owned(disk, d, m) + Owned(disk, d, b)
  {
    OwnedAppend(disk, d, a + m, b);
    OwnedAppend(disk, d, a, m);
  }

  lemma WfParts(disk: Disk, d: nat, a: seq<Entry>, m: seq<Entry>, b: seq<Entry>, hi: nat)
    requires m != []
    ensures WfList(disk, d, a + m + b, hi) <==>
            WfList(disk, d, a, m[0].key) && WfList(disk, d, m, NextKey(b, hi)) && WfList(disk, d, b, hi)
  {
    WfAppend(disk, d, a + m, b, hi);
    WfAppend(disk, d, a, m, NextKey(b, hi));
  }

  lemma UpdateMiddle(a: seq<Entry>, m: seq<Entry>, b: seq<Entry>, m': seq<Entry>, ex: Entry)
    requires IsUpdate(m, m', ex) && Unmapped(a + m + b, ex)
    ensures IsUpdate(a + m + b, a + m' + b, ex)
  {
    forall l
      ensures Lookup(a + m' + b, l) == if Covers(ex, l) then Some(Target(ex, l)) else Lookup(a + m + b, l)
    {
      LookupAppend(a + m, b, l);
      LookupAppend(a, m, l);
      LookupAppend(a + m', b, l);
      LookupAppend(a, m', l);
    }
  }

  lemma FrameAll(d0: Disk, d1: Disk, d: nat, es: seq<Entry>)
    requires Agree(d0, d1, Nodes(d0, d, es))
    ensures Flat(d1, d, es) == Flat(d0, d, es)
    ensures Owned(d1, d, es) == Owned(d0, d, es)
  {
    Frame(d0, d1, d, es);
  }

  /** Replacing one slot of a node, with its siblings untouched, updates the node. */
  lemma ReplaceMiddle(d0: Disk, d1: Disk, d: nat, a: seq<Entry>, e: Entry, b: seq<Entry>, rep: seq<Entry>,
                      hi: nat, ex: Entry, extra: multiset<nat>)
    requires WfList(d0, d, a + [e] + b, hi)
    requires Unmapped(Flat(d0, d, a + [e] + b), ex)
    requires Agree(d0, d1, Nodes(d0, d, a)) && Agree(d0, d1, Nodes(d0, d, b))
    requires rep != [] && rep[0].key == e.key
    requires UpdatedList(d0, [e], d1, rep, d, NextKey(b, hi), ex, extra)
    ensures UpdatedList(d0, a + [e] + b, d1, a + rep + b, d, hi, ex, extra)
  {
    hide WfList, Flat, Nodes, Owned, Agree, IsUpdate, Unmapped;
    WfParts(d0, d, a, [e], b, hi);
    FrameWf(d0, d1, d, a, e.key);
    FrameWf(d0, d1, d, b, hi);
    WfParts(d1, d, a, rep, b, hi);
    FrameAll(d0, d1, d, a);
    FrameAll(d0, d1, d, b);
    FlatParts(d0, d, a, [e], b);
    FlatParts(d1, d, a, rep, b);
    UpdateMiddle(Flat(d0, d, a), Flat(d0, d, [e]), Flat(d0, d, b), Flat(d1, d, rep), ex);
    OwnedParts(d0, d, a, [e], b);
    OwnedParts(d1, d, a, rep, b);
  }

  /** The siblings of a slot share no tree block with it, so a change below it leaves them alone. */
  lemma SiblingsAgree(d0: Disk, d1: Disk, d: nat, a: seq<Entry>, e: Entry, b: seq<Entry>, extra: multiset<nat>)
    requires Once(Owned(d0, d, a + [e] + b)) && Apart(extra, Owned(d0, d, a + [e] + b))
    requires OnlyTouched(d0, d1, NodesEntry(d0, d, e) + extra)
    ensures Agree(d0, d1, Nodes(d0, d, a)) && Agree(d0, d1, Nodes(d0, d, b))
  {
    OwnedParts(d0, d, a, [e], b);
    SingleEntry(d0, d, e);
    SiblingsApart(d0, d1, NodesEntry(d0, d, e), Owned(d0, d, [e]), Nodes(d0, d, a), Owned(d0, d, a),
                  Nodes(d0, d, b), Owned(d0, d, b), extra);
  }

  lemma SiblingsApart(d0: Disk, d1: Disk, ne: multiset<nat>, oe: multiset<nat>, na: multiset<nat>, oa: multiset<nat>,
                      nb: multiset<nat>, ob: multiset<nat>, extra: multiset<nat>)
    requires ne <= oe && na <= oa && nb <= ob
    requires Once(oa + oe + ob) && Apart(extra, oa + oe + ob)
    requires OnlyTouched(d0, d1, ne + extra)
    ensures Agree(d0, d1, na) && Agree(d0, d1, nb)
  {
    forall x | x in na || x in nb
      ensures x !in ne + extra
    {
      assert (oa + oe + ob)[x] == oa[x] + oe[x] + ob[x];
      if x in na {
        assert oa[x] >= na[x] >= 1;
      } else {
        assert ob[x] >= nb[x] >= 1;
      }
      assert x in oa + oe + ob;
    }
  }

  lemma SingleEntry(disk: Disk, d: nat, e: Entry)
    ensures Nodes(disk, d, [e]) == NodesEntry(disk, d, e)
    ensures Flat(disk, d, [e]) == FlatEntry(disk, d, e)
  {
    assert [e][1..] == [];
  }

  /** What the tree block under an index entry must hold. */
  ghost predicate IsChild(disk: Disk, d: nat, e: Entry, n: Node) {
    && 0 < d
    && e.phys != 0 && e.phys in disk && disk[e.phys] == TreeBlock(n)
    && n.depth == d - 1 && n.max == BLOCK_SLOTS && 0 < |n.entries| <= BLOCK_SLOTS
    && n.entries[0].key == e.key
  }

  lemma ChildEntry(disk: Disk, d: nat, e: Entry, n: Node, hi: nat)
    requires IsChild(disk, d, e, n)
    ensures WfList(disk, d, [e], hi) <==> WfList(disk, d - 1, n.entries, hi) && e.key < hi
    ensures Flat(disk, d, [e]) == Flat(disk, d - 1, n.entries)
    ensures Nodes(disk, d, [e]) == multiset{e.phys} + Nodes(disk, d - 1, n.entries)
    ensures Owned(disk, d, [e]) == multiset{e.phys} + Owned(disk, d - 1, n.entries)
  {
    assert [e][1..] == [];
  }

  // ---------- one level up ----------

  lemma Slice(es: seq<Entry>, c: nat)
    requires c < |es|
    ensures es == es[..c] + [es[c]] + es[c + 1..]
  {
  }

  /** A child rewritten in place: the parent's slots stay, and the parent is updated. */
  lemma LiftOne(d0: Disk, d1: Disk, d: nat, es: seq<Entry>, c: nat, o: Node, n: Node,
                hi: nat, ex: Entry, extra: multiset<nat>)
    requires c < |es| && WfList(d0, d, es, hi) && Unmapped(Flat(d0, d, es), ex)
    requires Once(Owned(d0, d, es)) && Apart(extra, Owned(d0, d, es))
    requires IsChild(d0, d, es[c], o) && IsChild(d1, d, es[c], n)
    requires UpdatedList(d0, o.entries, d1, n.entries, d - 1, NextKey(es[c + 1..], hi), ex, extra)
    requires OnlyTouched(d0, d1, NodesEntry(d0, d, es[c]) + extra)
    ensures UpdatedList(d0, es, d1, es, d, hi, ex, extra)
  {
    hide WfList, Flat, Nodes, Owned, NodesEntry, OnlyTouched, IsUpdate, Unmapped, Once, Apart;
    var a, e, b := es[..c], es[c], es[c + 1..];
    Slice(es, c);
    WfParts(d0, d, a, [e], b, hi);
    SingleBound(d0, d, e, NextKey(b, hi));
    SiblingsAgree(d0, d1, d, a, e, b, extra);
    ChildEntry(d0, d, e, o, NextKey(b, hi));
    ChildEntry(d1, d, e, n, NextKey(b, hi));
    ReplaceMiddle(d0, d1, d, a, e, b, [e], hi, ex, extra);
  }

  lemma SingleBound(disk: Disk, d: nat, e: Entry, hi: nat)
    requires WfList(disk, d, [e], hi)
    ensures e.key < hi
  {
    assert [e][1..] == [];
  }

  /** A child split in two, the right half in block r under key k: the parent gains one slot. */
  lemma LiftTwo(d0: Disk, d1: Disk, d: nat, es: seq<Entry>, c: nat, o: Node, left: Node, right: Node, r: Entry,
                hi: nat, ex: Entry, extra: multiset<nat>)
    requires c < |es| && WfList(d0, d, es, hi) && Unmapped(Flat(d0, d, es), ex)
    requires Once(Owned(d0, d, es)) && Apart(extra + multiset{r.phys}, Owned(d0, d, es))
    requires IsChild(d0, d, es[c], o) && IsChild(d1, d, es[c], left) && IsChild(d1, d, r, right)
    requires UpdatedList(d0, o.entries, d1, left.entries + right.entries, d - 1, NextKey(es[c + 1..], hi), ex, extra)
    requires OnlyTouched(d0, d1, NodesEntry(d0, d, es[c]) + (extra + multiset{r.phys}))
    ensures UpdatedList(d0, es, d1, es[..c] + [es[c], r] + es[c + 1..], d, hi, ex, extra + multiset{r.phys})
  {
    hide WfList, Flat, Nodes, Owned, NodesEntry, OnlyTouched, IsUpdate, Unmapped, Once, Apart;
    var a, e, b := es[..c], es[c], es[c + 1..];
    var h := NextKey(b, hi);
    Slice(es, c);
    SiblingsAgree(d0, d1, d, a, e, b, extra + multiset{r.phys});
    ChildEntry(d0, d, e, o, h);
    TwoChildren(d1, d, e, left, r, right, h);
    ReplaceMiddle(d0, d1, d, a, e, b, [e, r], hi, ex, extra + multiset{r.phys});
  }

  /** Two neighbouring children hold together what their slots hold one after the other. */
  lemma TwoChildren(disk: Disk, d: nat, e: Entry, left: Node, r: Entry, right: Node, hi: nat)
    requires IsChild(disk, d, e, left) && IsChild(disk, d, r, right)
    requires WfList(disk, d - 1, left.entries + right.entries, hi)
    ensures WfList(disk, d, [e, r], hi)
    ensures Flat(disk, d, [e, r]) == Flat(disk, d - 1, left.entries + right.entries)
    ensures Owned(disk, d, [e, r]) ==
            Owned(disk, d - 1, left.entries + right.entries) + multiset{e.phys} + multiset{r.phys}
  {
    hide WfList, Flat, Nodes, Owned;
    assert [e, r] == [e] + [r];
    WfAppend(disk, d - 1, left.entries, right.entries, hi);
    BoundedKeys(disk, d - 1, left.entries, r.key);
    BoundedKeys(disk, d - 1, right.entries, hi);
    ChildEntry(disk, d, e, left, r.key);
    ChildEntry(disk, d, r, right, hi);
    WfAppend(disk, d, [e], [r], hi);
    FlatAppend(disk, d, [e], [r]);
    FlatAppend(disk, d - 1, left.entries, right.entries);
    OwnedAppend(disk, d, [e], [r]);
    OwnedAppend(disk, d - 1, left.entries, right.entries);
  }

  /** Writes outside the new subtree leave the update in place. */
  lemma UpdatedFrame(d0: Disk, o: seq<Entry>, d1: Disk, d2: Disk, n: seq<Entry>,
                     d: nat, hi: nat, ex: Entry, extra: multiset<nat>)
    requires UpdatedList(d0, o, d1, n, d, hi, ex, extra) && Agree(d1, d2, Nodes(d1, d, n))
    ensures UpdatedList(d0, o, d2, n, d, hi, ex, extra)
  {
    hide WfList, Flat, Nodes, Owned, Agree, IsUpdate;
    FrameWf(d1, d2, d, n, hi);
    FrameAll(d1, d2, d, n);
  }

  // ---------- one level down ----------

  /** The slot read_path follows: the last key that is at most l, slot 0 when there is none. */
  function Pick(es: seq<Entry>, l: nat): (c: nat)
    requires es != []
    ensures c < |es|
  {
    if UpperBound(es, l) == 0 then 0 else UpperBound(es, l) - 1
  }

  lemma FlatNil(disk: Disk, d: nat)
    ensures Flat(disk, d, []) == []
  {
  }

  /** Following the picked slot loses nothing about logical block l. */
  lemma PickDown(disk: Disk, d: nat, es: seq<Entry>, hi: nat, l: nat, n: Node)
    requires 0 < d && es != [] && WfList(disk, d, es, hi) && IsChild(disk, d, es[Pick(es, l)], n)
    ensures var e, h := es[Pick(es, l)], NextKey(es[Pick(es, l) + 1..], hi);
            && WfList(disk, d - 1, n.entries, h)
            && h <= hi
            && Lookup(Flat(disk, d, es), l) == Lookup(Flat(disk, d - 1, n.entries), l)
            && multiset{e.phys} + Owned(disk, d - 1, n.entries) <= Owned(disk, d, es)
            && (es[0].key <= l ==> n.entries[0].key <= l)
  {
    hide WfList, Flat, Nodes, Owned;
    UpperBoundSplits(es, l);
    var c := Pick(es, l);
    var a, e, b := es[..c], es[c], es[c + 1..];
    Slice(es, c);
    WfParts(disk, d, a, [e], b, hi);
    BoundedKeys(disk, d, b, hi);
    ChildEntry(disk, d, e, n, NextKey(b, hi));
    FlatParts(disk, d, a, [e], b);
    OwnedParts(disk, d, a, [e], b);
    FlatRange(disk, d, a, e.key, l);
    FlatRange(disk, d, b, hi, l);
    LookupAppend(Flat(disk, d, a) + Flat(disk, d, [e]), Flat(disk, d, b), l);
    LookupAppend(Flat(disk, d, a), Flat(disk, d, [e]), l);
    if c == 0 {
      assert a == [];
      FlatNil(disk, d);
    } else {
      assert e.key <= l;
    }
    if b != [] {
      assert b[0] == es[c + 1];
    }
  }

  /** The slot at c of a well-formed index node leads to a node of its own. */
  lemma SlotChild(disk: Disk, d: nat, es: seq<Entry>, hi: nat, c: nat)
    requires 0 < d && c < |es| && WfList(disk, d, es, hi)
    ensures HasChild(disk, d, es[c]) && IsChild(disk, d, es[c], disk[es[c].phys].node)
  {
    Slice(es, c);
    WfParts(disk, d, es[..c], [es[c]], es[c + 1..], hi);
    assert [es[c]][1..] == [];
  }
}
