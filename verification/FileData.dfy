/**
 The bytes of an extent file: what its size, its tree and the disk stand for, and what mapping a
 block, writing a block and writing elsewhere do to them.
 */
module FileData {
  import opened Wrappers
  import opened Runs
  import opened ExtentTree
  import opened LeafInsert
  import opened TreeUpdate
  import opened TreePath
  import opened TreeInsert
  import opened TreeSpine
  import opened Extents
  import opened BlockIo

  /** Byte i of the file. */
  function ByteAt(disk: Disk, root: Node, i: nat): bv8 {
    match TreeLookup(disk, root, i / BLOCK_BYTES)
    case None => 0
    case Some(p) => if HasData(disk, p) then disk[p].bytes[i % BLOCK_BYTES] else 0
  }

  function Contents(disk: Disk, root: Node, size: nat): seq<bv8> {
    seq(size, i requires 0 <= i => ByteAt(disk, root, i))
  }

  predicate Stored(disk: Disk, root: Node, x: nat) {
    var p := TreeLookup(disk, root, x);
    p.Some? && HasData(disk, p.value)
  }

  /** The file maps exactly its first m blocks, and every block that holds part of its first size
      bytes has been written. */
  ghost predicate FileOk(disk: Disk, root: Node, size: nat, m: nat) {
    && WfTree(disk, root)
    && (forall x: nat :: TreeLookup(disk, root, x).Some? <==> x < m)
    && size <= m * BLOCK_BYTES
    && (forall x: nat :: x * BLOCK_BYTES < size ==> Stored(disk, root, x))
  }

  /** No file that 32 bits of a position can address gets a deeper tree: a fourth level of index nodes would
      take more extents than it has blocks. */
  const FILE_DEPTH: nat := 3

  /** The code looks at the low 32 bits of a position. */
  const POS_LIMIT: nat := 0x1_0000_0000

  /** The tree has grown by appending. */
  ghost predicate Lean(disk: Disk, root: Node) {
    root.depth <= FILE_DEPTH && Spine(disk, root.depth, root.entries)
  }

  /** b written over s from pos on. */
  function Overlay(s: seq<bv8>, pos: nat, b: seq<bv8>): seq<bv8>
    requires pos <= |s|
  {
    s[..pos] + b + if pos + |b| < |s| then s[pos + |b|..] else []
  }

  lemma OverlayTwice(s: seq<bv8>, pos: nat, a: seq<bv8>, b: seq<bv8>)
    requires pos <= |s|
    ensures Overlay(Overlay(s, pos, a), pos + |a|, b) == Overlay(s, pos, a + b)
  {
  }

  // ---------- lookups and ownership ----------

  lemma {:induction false} LookupOwned(es: seq<Entry>, l: nat)
    requires Lookup(es, l).Some?
    ensures Lookup(es, l).value in Data(es)
  {
    if Covers(es[0], l) {
      assert InRun(Target(es[0], l), es[0].phys, es[0].len);
    } else {
      LookupOwned(es[1..], l);
    }
  }

  /** No two logical blocks share a physical block. */
  lemma {:induction false} LookupInjective(es: seq<Entry>, l: nat, k: nat)
    requires Once(Data(es)) && Lookup(es, l).Some? && Lookup(es, k) == Lookup(es, l)
    ensures l == k
  {
    var p := Lookup(es, l).value;
    var first, rest := Run(es[0].phys, es[0].len), Data(es[1..]);
    assert Data(es)[p] == first[p] + rest[p];
    if Covers(es[0], l) || Covers(es[0], k) {
      assert InRun(p, es[0].phys, es[0].len);
      if !Covers(es[0], l) {
        LookupOwned(es[1..], l);
      } else if !Covers(es[0], k) {
        LookupOwned(es[1..], k);
      }
    } else {
      forall b
        ensures Data(es[1..])[b] <= 1
      {
        assert Data(es)[b] == first[b] + rest[b];
      }
      LookupInjective(es[1..], l, k);
    }
  }

  /** A mapped block is owned by the tree as data, not as a node, and by one logical block only. */
  lemma TreeLookupOwned(disk: Disk, root: Node, l: nat)
    requires WfTree(disk, root) && TreeLookup(disk, root, l).Some?
    ensures TreeLookup(disk, root, l).value in TreeOwned(disk, root)
    ensures TreeLookup(disk, root, l).value !in Nodes(disk, root.depth, root.entries)
    ensures forall k :: TreeLookup(disk, root, k) == TreeLookup(disk, root, l) ==> k == l
  {
    hide WfList, Flat, Nodes;
    var f := Flat(disk, root.depth, root.entries);
    LookupOwned(f, l);
    OnceParts(Nodes(disk, root.depth, root.entries), Data(f));
    forall k | Lookup(f, k) == Lookup(f, l)
      ensures k == l
    {
      LookupInjective(f, l, k);
    }
  }

  // ---------- writes elsewhere ----------

  /** A file does not notice writes to blocks it does not own. */
  lemma FileFrame(d0: Disk, d1: Disk, root: Node, size: nat, m: nat, t: multiset<nat>)
    requires FileOk(d0, root, size, m) && OnlyTouched(d0, d1, t) && Apart(t, TreeOwned(d0, root))
    ensures FileOk(d1, root, size, m) && Contents(d1, root, size) == Contents(d0, root, size)
    ensures TreeOwned(d1, root) == TreeOwned(d0, root) && (Lean(d0, root) ==> Lean(d1, root))
  {
    hide WfList, Flat, Nodes, Spine;
    forall b
      ensures !(b in t && b in Nodes(d0, root.depth, root.entries))
    {
      assert b in Nodes(d0, root.depth, root.entries) ==> b in TreeOwned(d0, root);
    }
    SameTree(d0, d1, root, t);
    LeanFrame(d0, d1, root, t);
    forall x | TreeLookup(d0, root, x).Some?
      ensures var p := TreeLookup(d0, root, x).value; (p in d0 <==> p in d1) && (p in d0 ==> d0[p] == d1[p])
    {
      TreeLookupOwned(d0, root, x);
    }
    SameBytes(d0, d1, root, size, m);
  }

  lemma LeanFrame(d0: Disk, d1: Disk, root: Node, t: multiset<nat>)
    requires OnlyTouched(d0, d1, t) && Apart(t, Nodes(d0, root.depth, root.entries))
    ensures Lean(d0, root) ==> Lean(d1, root)
  {
    hide Nodes, Spine;
    if Lean(d0, root) {
      SpineFrame(d0, d1, root.depth, root.entries);
    }
  }

  // ---------- how deep a file's tree can be ----------

  lemma {:induction false} KeyAtLeast(disk: Disk, f: seq<Entry>, hi: nat, k: nat)
    requires WfList(disk, 0, f, hi) && k < |f|
    ensures k <= f[k].key
  {
    if k > 0 {
      KeyAtLeast(disk, f, hi, k - 1);
      SortedKeys(disk, 0, f, hi, k - 1, k);
    }
  }

  /** A file of m blocks has at most m extents. */
  lemma FewExtents(disk: Disk, root: Node, size: nat, m: nat)
    requires FileOk(disk, root, size, m)
    ensures |Flat(disk, root.depth, root.entries)| <= m
  {
    hide WfList, Flat;
    FlatWf(disk, root.depth, root.entries, LBLOCKS);
    var f := Flat(disk, root.depth, root.entries);
    if f != [] {
      var n := |f| - 1;
      KeyAtLeast(disk, f, LBLOCKS, n);
      LastMapped(disk, f, n);
      assert TreeLookup(disk, root, f[n].key).Some?;
    }
  }

  lemma LastMapped(disk: Disk, f: seq<Entry>, n: nat)
    requires WfList(disk, 0, f, LBLOCKS) && n < |f|
    ensures Lookup(f, f[n].key).Some?
  {
    hide WfList;
    Slice(f, n);
    Wf3(disk, f[..n], f[n], f[n + 1..], LBLOCKS);
    LookupIndex(disk, f, LBLOCKS, n, f[n].key);
  }

  lemma CapThree()
    ensures (ROOT_SLOTS - 1) * Cap(3) == 116_874_657
  {
  }

  /** Appending to a file below 4 GiB never makes its tree deeper than that. */
  lemma StaysLean(d0: Disk, r0: Node, d1: Disk, r1: Node, size: nat, m: nat)
    requires FileOk(d0, r0, size, m) && Lean(d0, r0) && Appended(d0, r0, d1, r1) && m * BLOCK_BYTES < POS_LIMIT
    ensures Lean(d1, r1)
  {
    hide WfTree, Flat, Spine, Cap;
    FewExtents(d0, r0, size, m);
    CapThree();
  }

  lemma SameBytes(d0: Disk, d1: Disk, root: Node, size: nat, m: nat)
    requires FileOk(d0, root, size, m) && WfTree(d1, root)
    requires forall x :: TreeLookup(d1, root, x) == TreeLookup(d0, root, x)
    requires forall x :: TreeLookup(d0, root, x).Some? ==>
                           var p := TreeLookup(d0, root, x).value; (p in d0 <==> p in d1) && (p in d0 ==>
                               d0[p] == d1[p])
    ensures FileOk(d1, root, size, m) && Contents(d1, root, size) == Contents(d0, root, size)
  {
    hide WfTree, TreeLookup;
    forall i | 0 <= i < size
      ensures ByteAt(d1, root, i) == ByteAt(d0, root, i)
    {
    }
    forall x: nat | x * BLOCK_BYTES < size
      ensures Stored(d1, root, x)
    {
      assert Stored(d0, root, x);
    }
  }

  // ---------- mapping a run ----------

  /** Mapping a run right after the last mapped block adds it to the mapped prefix and changes no byte. */
  lemma MappedKeeps(d0: Disk, r0: Node, free0: set<nat>, d1: Disk, r1: Node, free1: set<nat>, ex: Entry, size: nat,
      m: nat)
    requires FileOk(d0, r0, size, m) && Apart(multiset(free0), TreeOwned(d0, r0))
    requires Mapped(d0, r0, free0, d1, r1, free1, ex) && ex.key == m
    ensures FileOk(d1, r1, size, m + ex.len) && Contents(d1, r1, size) == Contents(d0, r0, size)
  {
    hide WfTree, Flat, Nodes;
    forall x
      ensures TreeLookup(d1, r1, x) == if Covers(ex, x) then Some(Target(ex, x)) else TreeLookup(d0, r0, x)
    {
    }
    forall x: nat | x < m
      ensures TreeLookup(d1, r1, x) == TreeLookup(d0, r0, x)
      ensures var p := TreeLookup(d0, r0, x).value; (p in d0 <==> p in d1) && (p in d0 ==> d0[p] == d1[p])
    {
      DataKept(d0, r0, free0, d1, r1, free1, ex, x);
    }
    PrefixKeeps(d0, r0, d1, r1, size, m, ex.len);
  }

  /** Mapping a run anywhere else breaks the prefix for good: whatever size is claimed afterwards, and
      whatever number of mapped blocks, it is not a file any more. */
  lemma AppendExactly(d0: Disk, r0: Node, free0: set<nat>, d1: Disk, r1: Node, free1: set<nat>, ex: Entry, size: nat,
      m: nat)
    requires FileOk(d0, r0, size, m) && Apart(multiset(free0), TreeOwned(d0, r0))
    requires Mapped(d0, r0, free0, d1, r1, free1, ex) && 1 <= ex.len && TreeLookup(d0, r0, ex.key) == None
    ensures (exists size': nat, m': nat :: FileOk(d1, r1, size', m')) <==> ex.key == m
  {
    if ex.key == m {
      MappedKeeps(d0, r0, free0, d1, r1, free1, ex, size, m);
    } else {
      hide WfTree, Flat, Nodes;
      assert m < ex.key;
      assert TreeLookup(d0, r0, m) == None;
      assert !Covers(ex, m) && TreeLookup(d1, r1, m) == None;
      assert Covers(ex, ex.key) && TreeLookup(d1, r1, ex.key).Some?;
    }
  }

  lemma DataKept(d0: Disk, r0: Node, free0: set<nat>, d1: Disk, r1: Node, free1: set<nat>, ex: Entry, x: nat)
    requires WfTree(d0, r0) && Apart(multiset(free0), TreeOwned(d0, r0)) && TreeLookup(d0, r0, x).Some?
    requires Mapped(d0, r0, free0, d1, r1, free1, ex)
    ensures var p := TreeLookup(d0, r0, x).value; (p in d0 <==> p in d1) && (p in d0 ==> d0[p] == d1[p])
  {
    hide WfTree, Flat, Nodes;
    TreeLookupOwned(d0, r0, x);
    var p := TreeLookup(d0, r0, x).value;
    assert p !in multiset(free0);
    assert p !in Nodes(d0, r0.depth, r0.entries) + multiset(free0 - free1);
  }

  lemma PrefixKeeps(d0: Disk, r0: Node, d1: Disk, r1: Node, size: nat, m: nat, n: nat)
    requires FileOk(d0, r0, size, m) && WfTree(d1, r1)
    requires forall x: nat :: TreeLookup(d1, r1, x).Some? <==> x < m + n
    requires forall x: nat :: x < m ==>
               && TreeLookup(d1, r1, x) == TreeLookup(d0, r0, x)
               && var p := TreeLookup(d0, r0, x).value; (p in d0 <==> p in d1) && (p in d0 ==> d0[p] == d1[p])
    ensures FileOk(d1, r1, size, m + n) && Contents(d1, r1, size) == Contents(d0, r0, size)
  {
    hide WfTree, TreeLookup;
    forall i: nat | i < size
      ensures ByteAt(d1, r1, i) == ByteAt(d0, r0, i)
    {
      assert i / BLOCK_BYTES < m;
    }
    forall x: nat | x * BLOCK_BYTES < size
      ensures Stored(d1, r1, x)
    {
      assert Stored(d0, r0, x);
    }
  }

  // ---------- writing a block ----------

  function Larger(a: nat, b: nat): nat {
    if a < b then b else a
  }

  /** block is the old block x of the file with the bytes b put in at off; old bytes that the file
      does not show yet may be anything. */
  ghost predicate Patched(disk: Disk, root: Node, size: nat, x: nat, off: nat, b: seq<bv8>, block: seq<bv8>) {
    && |block| == BLOCK_BYTES && off + |b| <= BLOCK_BYTES && block[off..off + |b|] == b
    && forall j: nat :: j < BLOCK_BYTES && !(off <= j < off + |b|) && x * BLOCK_BYTES + j < size ==>
                          block[j] == ByteAt(disk, root, x * BLOCK_BYTES + j)
  }

  /** Writing such a block puts b over the file's bytes, and nothing else changes. */
  lemma WriteKeeps(d0: Disk, root: Node, size: nat, m: nat, x: nat, off: nat, b: seq<bv8>, block: seq<bv8>, d1: Disk)
    requires FileOk(d0, root, size, m) && x < m && x * BLOCK_BYTES + off <= size
    requires Patched(d0, root, size, x, off, b, block)
    requires d1 == d0[TreeLookup(d0, root, x).value := DataBlock(block)]
    ensures FileOk(d1, root, Larger(size, x * BLOCK_BYTES + off + |b|), m)
    ensures Contents(d1, root, Larger(size, x * BLOCK_BYTES + off + |b|)) ==
            Overlay(Contents(d0, root, size), x * BLOCK_BYTES + off, b)
    ensures forall y: nat :: TreeLookup(d1, root, y) == TreeLookup(d0, root, y)
    ensures TreeOwned(d1, root) == TreeOwned(d0, root)
    ensures OnlyTouched(d0, d1, TreeOwned(d0, root)) && (Lean(d0, root) ==> Lean(d1, root))
  {
    hide WfTree, TreeOwned, Flat, Nodes, Spine;
    var p := TreeLookup(d0, root, x).value;
    TreeLookupOwned(d0, root, x);
    SameTree(d0, d1, root, multiset{p});
    LeanFrame(d0, d1, root, multiset{p});
    WrittenBytes(d0, root, size, m, x, off, b, block, d1);
  }

  lemma WrittenBytes(d0: Disk, root: Node, size: nat, m: nat, x: nat, off: nat, b: seq<bv8>, block: seq<bv8>, d1: Disk)
    requires FileOk(d0, root, size, m) && x < m && x * BLOCK_BYTES + off <= size && WfTree(d1, root)
    requires Patched(d0, root, size, x, off, b, block)
    requires d1 == d0[TreeLookup(d0, root, x).value := DataBlock(block)]
    requires forall y :: TreeLookup(d1, root, y) == TreeLookup(d0, root, y)
    requires forall y :: TreeLookup(d0, root, y) == TreeLookup(d0, root, x) ==> y == x
    ensures FileOk(d1, root, Larger(size, x * BLOCK_BYTES + off + |b|), m)
    ensures Contents(d1, root, Larger(size, x * BLOCK_BYTES + off + |b|)) ==
            Overlay(Contents(d0, root, size), x * BLOCK_BYTES + off, b)
  {
    hide WfTree, TreeLookup;
    var size', pos := Larger(size, x * BLOCK_BYTES + off + |b|), x * BLOCK_BYTES + off;
    var s, s' := Contents(d0, root, size), Contents(d1, root, size');
    var o := Overlay(s, pos, b);
    forall i: nat | i < size'
      ensures s'[i] == o[i]
    {
      var y, j := i / BLOCK_BYTES, i % BLOCK_BYTES;
      assert i == y * BLOCK_BYTES + j;
      if y == x {
        assert ByteAt(d1, root, i) == block[j];
        if off <= j < off + |b| {
          assert block[j] == block[off..off + |b|][j - off];
        } else {
          assert x * BLOCK_BYTES + j < size;
        }
      } else {
        assert i < size && !(pos <= i < pos + |b|);
        assert Stored(d0, root, y);
      }
    }
    forall y: nat | y * BLOCK_BYTES < size'
      ensures Stored(d1, root, y)
    {
      if y != x {
        assert y * BLOCK_BYTES < size;
        assert Stored(d0, root, y);
      }
    }
    assert (x + 1) * BLOCK_BYTES <= m * BLOCK_BYTES;
  }
}
