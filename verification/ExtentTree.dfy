/**
 The meaning of an extent tree (fs/ext4/extents.c): what a node stored in the inode together with
 the tree blocks on disk stands for, and when it is well formed.  Everything here is about values;
 the code that changes nodes and disk blocks is in Extents.dfy.
 */
module ExtentTree {
  import opened Wrappers
  import opened Runs

  /** A 12-byte slot: an extent (ee_block, ee_len, ee_start) in a leaf,
      an index entry (ei_block, -, ei_leaf) above. */
  datatype Entry = Entry(key: nat, len: nat, phys: nat)

  /** A node header with its used slots; depth 0 is a leaf. */
  datatype Node = Node(depth: nat, max: nat, entries: seq<Entry>)

  datatype Block = TreeBlock(node: Node) | DataBlock(bytes: seq<bv8>)

  type Disk = map<nat, Block>

  const ROOT_SLOTS: nat := 4
  const BLOCK_SLOTS: nat := 340
  const MAX_DEPTH: nat := 5
  const INIT_MAX_LEN: nat := 0x7fff
  /** Logical blocks are 32 bits wide; no extent reaches the last one, so ee_block + ee_len never wraps. */
  const LBLOCKS: nat := 0xffff_ffff

  // ---------- meaning ----------

  function Covers(e: Entry, l: nat): bool {
    e.key <= l < e.key + e.len
  }

  /** The physical block e gives a logical block it covers. */
  function Target(e: Entry, l: nat): nat
    requires Covers(e, l)
  {
    e.phys + (l - e.key)
  }

  /** The physical block that a list of extents gives a logical block. */
  function Lookup(es: seq<Entry>, l: nat): Option<nat> {
    if es == [] then None
    else if Covers(es[0], l) then Some(Target(es[0], l))
    else Lookup(es[1..], l)
  }

  predicate HasChild(disk: Disk, d: nat, e: Entry) {
    0 < d && e.phys != 0 && e.phys in disk && disk[e.phys].TreeBlock? && disk[e.phys].node.depth == d - 1
  }

  /** The slots of the node an index entry points to. */
  function Kids(disk: Disk, d: nat, e: Entry): seq<Entry> {
    if HasChild(disk, d, e) then disk[e.phys].node.entries else []
  }

  /** The extents in or below one slot of a node of depth d. */
  function FlatEntry(disk: Disk, d: nat, e: Entry): seq<Entry>
    decreases d, 0
  {
    if d == 0 then [e] else Flat(disk, d - 1, Kids(disk, d, e))
  }

  /** All extents below the slots es of a node of depth d, left to right. */
  function Flat(disk: Disk, d: nat, es: seq<Entry>): seq<Entry>
    decreases d, 1 + |es|
  {
    if es == [] then [] else FlatEntry(disk, d, es[0]) + Flat(disk, d, es[1..])
  }

  /** The tree blocks one slot of a node of depth d leads to, with multiplicity. */
  function NodesEntry(disk: Disk, d: nat, e: Entry): multiset<nat>
    decreases d, 0
  {
    if d == 0 then multiset{} else multiset{e.phys} + Nodes(disk, d - 1, Kids(disk, d, e))
  }

  /** The tree blocks below the slots es of a node of depth d, with multiplicity. */
  function Nodes(disk: Disk, d: nat, es: seq<Entry>): multiset<nat>
    decreases d, 1 + |es|
  {
    if es == [] then multiset{} else NodesEntry(disk, d, es[0]) + Nodes(disk, d, es[1..])
  }

  /** The data blocks of a list of extents, with multiplicity. */
  function Data(es: seq<Entry>): multiset<nat> {
    if es == [] then multiset{} else Run(es[0].phys, es[0].len) + Data(es[1..])
  }

  /** Everything a subtree owns: its tree blocks and its data blocks. */
  function Owned(disk: Disk, d: nat, es: seq<Entry>): multiset<nat> {
    Nodes(disk, d, es) + Data(Flat(disk, d, es))
  }

  // ---------- well-formedness ----------

  function NextKey(es: seq<Entry>, hi: nat): nat {
    if es == [] then hi else es[0].key
  }

  /** Slot e of a node of depth d is well formed and everything below it lies in [e.key, hi). */
  ghost predicate WfEntry(disk: Disk, d: nat, e: Entry, hi: nat)
    decreases d, 0
  {
    if d == 0 then
      1 <= e.len <= INIT_MAX_LEN && 1 <= e.phys && e.key + e.len <= hi
    else
      && HasChild(disk, d, e)
      && var child := disk[e.phys].node;
      && child.max == BLOCK_SLOTS
      && 0 < |child.entries| <= BLOCK_SLOTS
      && child.entries[0].key == e.key
      && WfList(disk, d - 1, child.entries, hi)
  }

  /** The slots of a node of depth d are sorted, uniform in depth, each index key is the least
      logical block below it, and everything lies below hi. */
  ghost predicate WfList(disk: Disk, d: nat, es: seq<Entry>, hi: nat)
    decreases d, 1 + |es|
  {
    es == [] || (
      && es[0].key < NextKey(es[1..], hi)
      && WfEntry(disk, d, es[0], NextKey(es[1..], hi))
      && WfList(disk, d, es[1..], hi))
  }

  ghost predicate WfNode(disk: Disk, n: Node, hi: nat) {
    |n.entries| <= n.max && WfList(disk, n.depth, n.entries, hi)
  }

  // ---------- lists of slots ----------

  lemma {:induction false} LookupAppend(a: seq<Entry>, b: seq<Entry>, l: nat)
    ensures Lookup(a + b, l) == if Lookup(a, l).Some? then Lookup(a, l) else Lookup(b, l)
  {
    if a == [] {
      assert a + b == b;
    } else {
      assert (a + b)[1..] == a[1..] + b;
      LookupAppend(a[1..], b, l);
    }
  }

  lemma {:induction false} DataAppend(a: seq<Entry>, b: seq<Entry>)
    ensures Data(a + b) == Data(a) + Data(b)
  {
    if a == [] {
      assert a + b == b;
    } else {
      assert (a + b)[1..] == a[1..] + b;
      DataAppend(a[1..], b);
    }
  }

  lemma {:induction false} FlatLeaf(disk: Disk, es: seq<Entry>)
    ensures Flat(disk, 0, es) == es
    ensures Nodes(disk, 0, es) == multiset{}
  {
    if es != [] {
      FlatLeaf(disk, es[1..]);
    }
  }

  lemma {:induction false} FlatAppend(disk: Disk, d: nat, a: seq<Entry>, b: seq<Entry>)
    ensures Flat(disk, d, a + b) == Flat(disk, d, a) + Flat(disk, d, b)
  {
    if a == [] {
      assert a + b == b;
    } else {
      assert (a + b)[1..] == a[1..] + b;
      FlatAppend(disk, d, a[1..], b);
    }
  }

  lemma {:induction false} NodesAppend(disk: Disk, d: nat, a: seq<Entry>, b: seq<Entry>)
    ensures Nodes(disk, d, a + b) == Nodes(disk, d, a) + Nodes(disk, d, b)
  {
    if a == [] {
      assert a + b == b;
    } else {
      assert (a + b)[1..] == a[1..] + b;
      NodesAppend(disk, d, a[1..], b);
    }
  }

  lemma {:induction false} OwnedAppend(disk: Disk, d: nat, a: seq<Entry>, b: seq<Entry>)
    ensures Owned(disk, d, a + b) == Owned(disk, d, a) + Owned(disk, d, b)
  {
    NodesAppend(disk, d, a, b);
    FlatAppend(disk, d, a, b);
    DataAppend(Flat(disk, d, a), Flat(disk, d, b));
  }

  lemma {:induction false} WfAppend(disk: Disk, d: nat, a: seq<Entry>, b: seq<Entry>, hi: nat)
    ensures WfList(disk, d, a + b, hi) <==> WfList(disk, d, a, NextKey(b, hi)) && WfList(disk, d, b, hi)
  {
    if a == [] {
      assert a + b == b;
    } else {
      assert (a + b)[1..] == a[1..] + b;
      WfAppend(disk, d, a[1..], b, hi);
    }
  }

  // ---------- what a subtree covers ----------

  /** The flat list of a well-formed subtree is itself a well-formed leaf list with the same bounds. */
  lemma {:induction false} FlatWf(disk: Disk, d: nat, es: seq<Entry>, hi: nat)
    requires WfList(disk, d, es, hi)
    ensures WfList(disk, 0, Flat(disk, d, es), hi)
    ensures es != [] ==> Flat(disk, d, es) != [] && Flat(disk, d, es)[0].key == es[0].key
    decreases d, |es|
  {
    if es == [] {
    } else {
      var left, right := FlatEntry(disk, d, es[0]), Flat(disk, d, es[1..]);
      FlatWf(disk, d, es[1..], hi);
      if d == 0 {
        assert left[1..] == [];
      } else {
        FlatWf(disk, d - 1, Kids(disk, d, es[0]), NextKey(es[1..], hi));
      }
      WfAppend(disk, 0, left, right, hi);
    }
  }

  lemma {:induction false} LookupRange(disk: Disk, es: seq<Entry>, hi: nat, l: nat)
    requires WfList(disk, 0, es, hi)
    requires l < NextKey(es, hi) || hi <= l
    ensures Lookup(es, l) == None
  {
    if es != [] {
      BoundedKeys(disk, 0, es, hi);
      BoundedKeys(disk, 0, es[1..], hi);
      LookupRange(disk, es[1..], hi, l);
    }
  }

  /** Nothing below a well-formed subtree is mapped outside [first key, hi), and its first key is mapped. */
  lemma {:induction false} FlatRange(disk: Disk, d: nat, es: seq<Entry>, hi: nat, l: nat)
    requires WfList(disk, d, es, hi)
    ensures l < NextKey(es, hi) || hi <= l ==> Lookup(Flat(disk, d, es), l) == None
    ensures es != [] ==> Lookup(Flat(disk, d, es), es[0].key).Some? && es[0].key < hi
  {
    FlatWf(disk, d, es, hi);
    var f := Flat(disk, d, es);
    if es == [] {
      assert f == [];
    }
    if l < NextKey(es, hi) || hi <= l {
      LookupRange(disk, f, hi, l);
    }
    if es != [] {
      assert Covers(f[0], f[0].key);
      BoundedKeys(disk, d, es, hi);
    }
  }

  lemma {:induction false} BoundedKeys(disk: Disk, d: nat, es: seq<Entry>, hi: nat)
    requires WfList(disk, d, es, hi)
    ensures es != [] ==> es[0].key < hi
  {
    if |es| > 1 {
      BoundedKeys(disk, d, es[1..], hi);
    }
  }

  lemma {:induction false} SortedKeys(disk: Disk, d: nat, es: seq<Entry>, hi: nat, i: nat, j: nat)
    requires WfList(disk, d, es, hi) && i < j < |es|
    ensures es[i].key < es[j].key
    ensures d == 0 ==> es[i].key + es[i].len <= es[j].key
  {
    if i > 0 {
      SortedKeys(disk, d, es[1..], hi, i - 1, j - 1);
    } else if j > 1 {
      SortedKeys(disk, d, es[1..], hi, 0, j - 1);
    }
  }

  // ---------- framing ----------

  ghost predicate Agree(d0: Disk, d1: Disk, s: multiset<nat>) {
    forall b :: b in s ==> (b in d0 <==> b in d1) && (b in d0 ==> d0[b] == d1[b])
  }

  lemma AgreeParts(d0: Disk, d1: Disk, s: multiset<nat>, t: multiset<nat>)
    requires Agree(d0, d1, s + t)
    ensures Agree(d0, d1, s) && Agree(d0, d1, t)
  {
    forall x | x in s || x in t
      ensures x in s + t
    {
    }
  }

  lemma FrameEntry(d0: Disk, d1: Disk, d: nat, e: Entry)
    requires d != 0
    requires Agree(d0, d1, NodesEntry(d0, d, e))
    ensures Kids(d0, d, e) == Kids(d1, d, e)
    ensures HasChild(d0, d, e) ==> HasChild(d1, d, e) && d0[e.phys] == d1[e.phys]
    ensures Agree(d0, d1, Nodes(d0, d - 1, Kids(d0, d, e)))
  {
    AgreeParts(d0, d1, multiset{e.phys}, Nodes(d0, d - 1, Kids(d0, d, e)));
    assert e.phys in multiset{e.phys};
  }

  /** A subtree depends on the disk only through its own tree blocks. */
  lemma {:induction false} Frame(d0: Disk, d1: Disk, d: nat, es: seq<Entry>)
    requires Agree(d0, d1, Nodes(d0, d, es))
    ensures Nodes(d1, d, es) == Nodes(d0, d, es)
    ensures Flat(d1, d, es) == Flat(d0, d, es)
    decreases d, |es|
  {
    if es != [] {
      AgreeParts(d0, d1, NodesEntry(d0, d, es[0]), Nodes(d0, d, es[1..]));
      if d != 0 {
        FrameEntry(d0, d1, d, es[0]);
        Frame(d0, d1, d - 1, Kids(d0, d, es[0]));
      }
      Frame(d0, d1, d, es[1..]);
    }
  }

  lemma {:induction false} FrameWf(d0: Disk, d1: Disk, d: nat, es: seq<Entry>, hi: nat)
    requires Agree(d0, d1, Nodes(d0, d, es))
    requires WfList(d0, d, es, hi)
    ensures WfList(d1, d, es, hi)
    decreases d, |es|
  {
    if es != [] {
      AgreeParts(d0, d1, NodesEntry(d0, d, es[0]), Nodes(d0, d, es[1..]));
      if d != 0 {
        FrameEntry(d0, d1, d, es[0]);
        FrameWf(d0, d1, d - 1, Kids(d0, d, es[0]), NextKey(es[1..], hi));
      }
      FrameWf(d0, d1, d, es[1..], hi);
    }
  }
}
