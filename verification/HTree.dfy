/**
 Hash-indexed directories (fs/ext4/htree.c): the table that routes hashes to leaf blocks, and the split
 of a full leaf: collect its entries, sort them by hash, pack each half into a block of its own, and
 give the upper half a place in the table.  The hash of a name is a parameter; scratch memory, disk I/O
 and the allocation of the new leaf succeed.
 */
module HTree {
  import opened Wrappers
  import opened DirBlock
  import opened Directory
  import opened NameHash

  /** struct ext4_dx_entry.  The hash of the first slot of a table is overlaid by its count and limit
      and is never looked at. */
  datatype DxEntry = DxEntry(hash: nat, block: nat)

  /** struct ext4_htree_leaf_item */
  datatype Item = Item(hash: nat, ino: nat, name: seq<byte>)

  const MAX_ITEMS: nat := 512
  /** The dcache keeps names of at most 31 bytes. */
  const SHORT_NAME: nat := 31

  // ---------- the table ----------

  /** Slot i of the table answers for hash h. */
  predicate Covered(es: seq<DxEntry>, i: nat, h: nat)
    requires i < |es|
  {
    (i == 0 || es[i].hash <= h) && (i + 1 == |es| || h < es[i + 1].hash)
  }

  ghost predicate SortedDx(es: seq<DxEntry>) {
    forall i, j :: 1 <= i < j < |es| ==> es[i].hash <= es[j].hash
  }

  ghost predicate DistinctBlocks(es: seq<DxEntry>) {
    forall i, j :: 0 <= i < j < |es| ==> es[i].block != es[j].block
  }

  /** At most one slot answers for a hash. */
  lemma CoveredOnce(es: seq<DxEntry>, i: nat, j: nat, h: nat)
    requires SortedDx(es) && i < |es| && j < |es| && Covered(es, i, h) && Covered(es, j, h)
    ensures i == j
  {
  }

  /** ext4_htree_pick_leaf_lblock on a table with at least one slot. */
  method PickLeaf(es: seq<DxEntry>, h: nat) returns (leaf: nat, ghost at: nat)
    requires es != [] && SortedDx(es)
    ensures at < |es| && leaf == es[at].block && Covered(es, at, h)
    ensures forall i :: 0 <= i < |es| && Covered(es, i, h) ==> i == at && leaf == es[i].block
  {
    leaf, at := es[0].block, 0;
    var i := 1;
    while i < |es|
      invariant 1 <= i <= |es| && at == i - 1 && leaf == es[at].block
      invariant at == 0 || es[at].hash <= h
    {
      if h < es[i].hash {
        break;
      }
      leaf, at := es[i].block, i;
      i := i + 1;
    }
    forall k | 0 <= k < |es| && Covered(es, k, h)
      ensures k == at && leaf == es[k].block
    {
      CoveredOnce(es, k, at, h);
    }
  }

  /** ext4_htree_find_dx_index_for_lblock */
  method FindSlot(es: seq<DxEntry>, block: nat) returns (i: int)
    ensures i == -1 ==> forall k :: 0 <= k < |es| ==> es[k].block != block
    ensures i != -1 ==> 0 <= i < |es| && es[i].block == block && forall k :: 0 <= k < i ==> es[k].block != block
  {
    i := 0;
    while i < |es|
      invariant 0 <= i <= |es|
      invariant forall k :: 0 <= k < i ==> es[k].block != block
    {
      if es[i].block == block {
        return;
      }
      i := i + 1;
    }
    i := -1;
  }

  /** The table after the leaf in slot idx was split. */
  function SplitTable(es: seq<DxEntry>, idx: nat, e: DxEntry): seq<DxEntry>
    requires idx < |es|
  {
    es[..idx + 1] + [e] + es[idx + 1..]
  }

  /** A hash that stays out of slot idx keeps its slot, one further on if it lies behind. */
  lemma OthersRouted(es: seq<DxEntry>, idx: nat, e: DxEntry, j: nat, h: nat)
    requires SortedDx(es) && idx < |es| && j < |es| && j != idx && Covered(es, j, h)
    requires Covered(es, idx, e.hash)
    ensures Covered(SplitTable(es, idx, e), if j < idx then j else j + 1, h)
  {
  }

  lemma SplitSorted(es: seq<DxEntry>, idx: nat, e: DxEntry)
    requires SortedDx(es) && idx < |es| && Covered(es, idx, e.hash)
    ensures SortedDx(SplitTable(es, idx, e))
  {
    var t := SplitTable(es, idx, e);
    forall i, j | 1 <= i < j < |t|
      ensures t[i].hash <= t[j].hash
    {
      if i <= idx && j == idx + 1 {
        assert es[i].hash <= es[idx].hash || i == idx;
      } else if i == idx + 1 {
        assert es[idx + 1].hash <= es[j - 1].hash || j == idx + 2;
      }
    }
  }

  ghost predicate SortedItems(s: seq<Item>) {
    forall i, j :: 0 <= i < j < |s| ==> s[i].hash <= s[j].hash
  }

  /** Every item of s hashes to slot i. */
  ghost predicate AllRouted(es: seq<DxEntry>, i: nat, s: seq<Item>)
    requires i < |es|
  {
    forall k :: 0 <= k < |s| ==> Covered(es, i, s[k].hash)
  }

  /** Routing is exact after the split precisely when no hash lies on both sides of the cut. */
  lemma SplitRouted(es: seq<DxEntry>, idx: nat, s: seq<Item>, mid: nat, block: nat)
    requires SortedDx(es) && idx < |es| && SortedItems(s) && AllRouted(es, idx, s) && 0 < mid < |s|
    ensures var t := SplitTable(es, idx, DxEntry(s[mid].hash, block));
            && SortedDx(t) && idx + 1 < |t| && AllRouted(t, idx + 1, s[mid..])
            && (AllRouted(t, idx, s[..mid]) <==> s[mid - 1].hash < s[mid].hash)
  {
    var e := DxEntry(s[mid].hash, block);
    SplitSorted(es, idx, e);
    var t := SplitTable(es, idx, e);
    forall k | 0 <= k < |s[mid..]|
      ensures Covered(t, idx + 1, s[mid..][k].hash)
    {
      assert s[mid].hash <= s[mid + k].hash || k == 0;
      assert Covered(es, idx, s[mid + k].hash);
    }
    if s[mid - 1].hash < s[mid].hash {
      forall k | 0 <= k < mid
        ensures Covered(t, idx, s[..mid][k].hash)
      {
        assert s[k].hash <= s[mid - 1].hash || k == mid - 1;
        assert Covered(es, idx, s[k].hash);
      }
    } else {
      assert s[..mid][mid - 1] == s[mid - 1];
    }
  }

  // ---------- sizes ----------

  lemma Cancel<T>(a: multiset<T>, l: multiset<T>, r: multiset<T>, x: T, all: multiset<T>)
    requires all == a + multiset{x} && all == l + multiset{x} + r
    ensures a == l + r
  {
    forall y
      ensures a[y] == (l + r)[y]
    {
      assert (a + multiset{x})[y] == (l + multiset{x} + r)[y];
    }
  }

  lemma {:induction false} SizePermuted(a: seq<DirEntry>, b: seq<DirEntry>)
    requires multiset(a) == multiset(b)
    ensures Size(a) == Size(b)
  {
    assert |multiset(a)| == |multiset(b)|;
    if a != [] {
      var n := |a| - 1;
      var x := a[n];
      assert a == a[..n] + [x];
      assert x in multiset(b);
      var k :| 0 <= k < |b| && b[k] == x;
      var l, r := b[..k], b[k + 1..];
      assert b == l + [x] + r;
      Cancel(multiset(a[..n]), multiset(l), multiset(r), x, multiset(a));
      SizePermuted(a[..n], l + r);
      SizeAppend(l + [x], r);
      SizeAppend(l, [x]);
      SizeAppend(l, r);
      assert [x][..0] == [];
    }
  }

  lemma {:induction false} SizeRange(es: seq<DirEntry>, longest: nat)
    requires forall i :: 0 <= i < |es| ==> 1 <= |es[i].name| <= longest
    ensures 12 * |es| <= Size(es) <= RecLen(longest) * |es|
  {
    hide RecLen;
    if es != [] {
      var n, r := |es| - 1, RecLen(longest);
      SizeRange(es[..n], longest);
      RecLenRange(|es[n].name|, longest);
      MulNext(r, n);
    }
  }

  lemma MulNext(r: nat, n: nat)
    ensures r * (n + 1) == r * n + r
  {
  }

  lemma RecLenRange(n: nat, longest: nat)
    requires 1 <= n <= longest
    ensures 12 <= RecLen(n) <= RecLen(longest)
  {
  }

  /** A block holds far fewer entries than the shared item array. */
  lemma FewEntries(b: Buf)
    requires Tiled(b)
    ensures |BlockEntries(b)| < MAX_ITEMS
  {
    SizeInBlock(b, 0, BLOCK);
    SizeRange(BlockEntries(b), MAX_NAME);
  }

  /** With names of at most 31 bytes either half of a full leaf and one more entry, cut at half the
      number of entries, leaves room for a free record at the end of its block. */
  lemma HalvesFit(b: Buf, e: DirEntry, s: seq<DirEntry>)
    requires Tiled(b) && multiset(s) == multiset(BlockEntries(b)) + multiset{e}
    requires forall i :: 0 <= i < |s| ==> 1 <= |s[i].name| <= SHORT_NAME
    ensures Size(s[..|s| / 2]) <= BLOCK - HEADER && Size(s[|s| / 2..]) <= BLOCK - HEADER
  {
    hide Size, Tiles, Entries, RecLen;
    var es, mid := BlockEntries(b), |s| / 2;
    var l, r := s[..mid], s[mid..];
    SizeInBlock(b, 0, BLOCK);
    assert multiset(es + [e]) == multiset(es) + multiset{e};
    SizePermuted(s, es + [e]);
    SizeAppend(es, [e]);
    assert s == l + r;
    SizeAppend(l, r);
    assert e in multiset(s);
    SizeRange([e], SHORT_NAME);
    SizeRange(l, SHORT_NAME);
    SizeRange(r, SHORT_NAME);
    assert RecLen(SHORT_NAME) == 40 by {
      ShortNames();
    }
  }

  lemma ShortNames()
    ensures RecLen(SHORT_NAME) == 40
  {
  }

  // ---------- collecting, sorting, packing ----------

  type Hash = seq<byte> -> nat

  function ItemsOf(es: seq<DirEntry>, h: Hash): (s: seq<Item>)
    ensures |s| == |es| && forall i :: 0 <= i < |es| ==> s[i] == Item(h(es[i].name), es[i].ino, es[i].name)
  {
    seq(|es|, i requires 0 <= i < |es| => Item(h(es[i].name), es[i].ino, es[i].name))
  }

  function EntriesOf(s: seq<Item>): (es: seq<DirEntry>)
    ensures |es| == |s| && forall i :: 0 <= i < |s| ==> es[i] == DirEntry(s[i].name, s[i].ino)
  {
    seq(|s|, i requires 0 <= i < |s| => DirEntry(s[i].name, s[i].ino))
  }

  /** ext4_htree_leaf_collect */
  method Collect(b: Buf, h: Hash, items: array<Item>) returns (n: nat)
    requires Tiled(b) && items.Length == MAX_ITEMS
    modifies items
    ensures n == |BlockEntries(b)| < MAX_ITEMS && items[..n] == ItemsOf(BlockEntries(b), h)
  {
    hide RecOk, LenAt, InoAt, UsedAt, Entries, Tiles, Size;
    NoEntries(b);
    n := 0;
    var off := 0;
    while off < BLOCK
      invariant off <= BLOCK && Tiles(b, 0, off) && Tiles(b, off, BLOCK)
      invariant n == |Entries(b, 0, off)| < MAX_ITEMS && items[..n] == ItemsOf(Entries(b, 0, off), h)
      decreases BLOCK - off
    {
      RecBounds(b, off);
      Extend(b, off);
      ghost var next := off + LenAt(b, off);
      FewBelow(b, next);
      if InoAt(b, off) != 0 && b[off + 6] > 0 {
        var name := b[off + HEADER..off + HEADER + b[off + 6]];
        items[n] := Item(h(name), InoAt(b, off), name);
        n := n + 1;
      }
      assert items[..n] == ItemsOf(Entries(b, 0, next), h);
      off := off + LenAt(b, off);
    }
  }

  lemma FewBelow(b: Buf, off: nat)
    requires off <= BLOCK && Tiles(b, 0, off)
    ensures |Entries(b, 0, off)| < MAX_ITEMS
  {
    SizeInBlock(b, 0, off);
    SizeRange(Entries(b, 0, off), MAX_NAME);
  }

  /** ext4_htree_sort_items */
  method SortItems(items: array<Item>, n: nat)
    requires n <= items.Length
    modifies items
    ensures SortedItems(items[..n]) && multiset(items[..n]) == multiset(old(items[..n]))
  {
    var i := 0;
    while i + 1 < n
      invariant 0 <= i <= n
      invariant forall a, b :: 0 <= a < i && a < b < n ==> items[a].hash <= items[b].hash
      invariant multiset(items[..n]) == multiset(old(items[..n]))
    {
      var j := i + 1;
      while j < n
        invariant i < j <= n
        invariant forall a, b :: 0 <= a < i && a < b < n ==> items[a].hash <= items[b].hash
        invariant forall k :: i < k < j ==> items[i].hash <= items[k].hash
        invariant multiset(items[..n]) == multiset(old(items[..n]))
      {
        if items[i].hash > items[j].hash {
          ghost var s := items[..n];
          items[i], items[j] := items[j], items[i];
          assert items[..n] == s[i := s[j]][j := s[i]];
        }
        j := j + 1;
      }
      i := i + 1;
    }
  }

  ghost predicate Packable(es: seq<DirEntry>) {
    && Size(es) <= BLOCK - HEADER
    && forall i :: 0 <= i < |es| ==> 1 <= |es[i].name| <= MAX_NAME && 0 < es[i].ino < 0x1_0000_0000
  }

  /** ext4_htree_pack_leaf on the items [from, from + n). */
  method PackLeaf(items: array<Item>, from: nat, n: nat) returns (c: Buf)
    requires from + n <= items.Length && Packable(EntriesOf(items[from..from + n]))
    ensures Tiled(c) && BlockEntries(c) == EntriesOf(items[from..from + n])
  {
    hide PutRec, Tiles, Entries, Size, RecLen, RecOk;
    ghost var es := EntriesOf(items[from..from + n]);
    var buf := new byte[BLOCK](_ => 0);
    var pos := 0;
    NoEntries(buf[..]);
    NoSize(es);
    var i := 0;
    while i < n
      invariant 0 <= i <= n && pos == Size(es[..i]) && pos % 4 == 0 && pos <= BLOCK - HEADER
      invariant Tiles(buf[..], 0, pos) && Entries(buf[..], 0, pos) == es[..i]
    {
      ghost var b: Buf := buf[..];
      var it := items[from + i];
      assert es[i] == DirEntry(it.name, it.ino);
      SizeStep(es, i);
      var rl := RecLen(|it.name|);
      StoreRec(buf, pos, rl, it.ino, it.name);
      PackOne(b, buf[..], pos, es[..i], it.name, it.ino);
      assert es[..i + 1] == es[..i] + [es[i]];
      pos, i := pos + rl, i + 1;
    }
    assert es[..i] == es;
    ghost var b: Buf := buf[..];
    StoreRec(buf, pos, BLOCK - pos, 0, []);
    c := buf[..];
    PackTail(b, c, pos, es);
  }

  lemma SizeStep(es: seq<DirEntry>, i: nat)
    requires i < |es| && Packable(es)
    ensures Size(es[..i + 1]) == Size(es[..i]) + RecLen(|es[i].name|) <= BLOCK - HEADER
    ensures RecLen(|es[i].name|) % 4 == 0 && HEADER + |es[i].name| <= RecLen(|es[i].name|)
  {
    hide RecLen;
    assert es[..i + 1][..i] == es[..i];
    assert es == es[..i + 1] + es[i + 1..];
    SizeAppend(es[..i + 1], es[i + 1..]);
  }

  lemma PackOne(b: Buf, c: Buf, pos: nat, es: seq<DirEntry>, name: seq<byte>, ino: nat)
    requires pos + RecLen(|name|) <= BLOCK && 1 <= |name| <= MAX_NAME && 0 < ino < 0x1_0000_0000
    requires Tiles(b, 0, pos) && Entries(b, 0, pos) == es
    requires RecLen(|name|) < 0x1_0000 && c == PutRec(b, pos, RecLen(|name|), ino, name)
    ensures Tiles(c, 0, pos + RecLen(|name|)) && Entries(c, 0, pos + RecLen(|name|)) == es + [DirEntry(name, ino)]
  {
    hide PutRec, Tiles, Entries;
    PutRecReads(b, pos, RecLen(|name|), ino, name);
    NewRec(c, pos, pos + RecLen(|name|), name, ino);
    TilesFrame(b, c, 0, pos);
    TilesAppend(c, 0, pos, pos + RecLen(|name|));
  }

  lemma PackTail(b: Buf, c: Buf, pos: nat, es: seq<DirEntry>)
    requires pos + HEADER <= BLOCK && pos % 4 == 0 && Tiles(b, 0, pos) && Entries(b, 0, pos) == es
    requires c == PutRec(b, pos, BLOCK - pos, 0, [])
    ensures Tiled(c) && BlockEntries(c) == es
  {
    hide PutRec, Tiles, Entries;
    PutRecReads(b, pos, BLOCK - pos, 0, []);
    OneRec(c, pos, BLOCK);
    TilesFrame(b, c, 0, pos);
    TilesAppend(c, 0, pos, BLOCK);
  }

  ghost predicate Hashed(s: seq<Item>, h: Hash) {
    forall i :: 0 <= i < |s| ==> s[i].hash == h(s[i].name)
  }

  /** Packing items into a leaf and collecting that leaf gives the items back. */
  method CollectPacked(items: array<Item>, from: nat, n: nat, h: Hash, out: array<Item>) returns (k: nat)
    requires from + n <= items.Length && out.Length == MAX_ITEMS && out != items
    requires Packable(EntriesOf(items[from..from + n])) && Hashed(items[from..from + n], h)
    modifies out
    ensures k == n <= MAX_ITEMS && out[..k] == items[from..from + n]
  {
    hide Tiled, BlockEntries, Packable;
    ghost var s := items[from..from + n];
    var c := PackLeaf(items, from, n);
    k := Collect(c, h, out);
    assert ItemsOf(EntriesOf(s), h) == s;
  }

  // ---------- the split ----------

  ghost predicate EntriesRouted(es: seq<DxEntry>, i: nat, leaf: seq<DirEntry>, h: Hash)
    requires i < |es|
  {
    forall k :: 0 <= k < |leaf| ==> Covered(es, i, h(leaf[k].name))
  }

  ghost predicate Short(es: seq<DirEntry>) {
    forall i :: 0 <= i < |es| ==> |es[i].name| <= SHORT_NAME
  }

  ghost predicate DxShape(blocks: seq<Buf>, es: seq<DxEntry>) {
    && AllTiled(blocks) && (forall i :: 0 <= i < |blocks| ==> Short(BlockEntries(blocks[i])))
    && SortedDx(es) && DistinctBlocks(es)
    && (forall i :: 0 <= i < |es| ==> 0 < es[i].block < |blocks|)
  }

  ghost predicate DxRouted(blocks: seq<Buf>, es: seq<DxEntry>, h: Hash)
    requires DxShape(blocks, es)
  {
    forall i :: 0 <= i < |es| ==> EntriesRouted(es, i, BlockEntries(blocks[es[i].block]), h)
  }

  /** An indexed directory of one level: block 0 holds the table, the other blocks are leaves. */
  class IndexedDir {
    const h: Hash
    var blocks: seq<Buf>
    const table: array<DxEntry>
    var count: nat
    const items: array<Item>

    constructor (h: Hash, blocks: seq<Buf>, es: seq<DxEntry>, limit: nat)
      requires 1 <= |es| <= limit && DxShape(blocks, es)
      ensures Shape() && this.h == h && this.blocks == blocks && table.Length == limit && table[..count] == es
      ensures fresh(table) && fresh(items) && table as object != items
    {
      this.h, this.blocks, count := h, blocks, |es|;
      table := new DxEntry[limit](i requires 0 <= i => if i < |es| then es[i] else DxEntry(0, 0));
      items := new Item[MAX_ITEMS](_ => Item(0, 0, []));
    }

    ghost predicate Shape()
      reads this, table
    {
      items.Length == MAX_ITEMS && 1 <= count <= table.Length && DxShape(blocks, table[..count])
    }

    /** Every leaf holds only entries whose hashes lead to it. */
    ghost predicate Routed()
      requires Shape()
      reads this, table
    {
      DxRouted(blocks, table[..count], h)
    }

    /** The indexed part of ext4_find_entry: one leaf decides for all of them. */
    method Lookup(name: seq<byte>) returns (ino: Option<nat>)
      requires Shape() && Routed()
      ensures ino.None? <==> forall i :: 0 <= i < count ==> Absent(BlockEntries(blocks[table[i].block]), name)
      ensures ino.Some? ==> exists i :: 0 <= i < count && Has(BlockEntries(blocks[table[i].block]), name, ino.value)
    {
      hide BlockEntries, Tiled, FirstIn, SortedDx;
      var leaf, j := PickLeaf(table[..count], h(name));
      var at, prev := ScanBlock(blocks[leaf], name);
      if at.Some? {
        InBlock(blocks[leaf], name, at.value);
        ino := Some(InoAt(blocks[leaf], at.value));
        assert Has(BlockEntries(blocks[table[j].block]), name, ino.value);
        HasNotAbsent(BlockEntries(blocks[leaf]), name, ino.value);
        return;
      }
      forall i | 0 <= i < count
        ensures Absent(BlockEntries(blocks[table[i].block]), name)
      {
        assert EntriesRouted(table[..count], i, BlockEntries(blocks[table[i].block]), h);
        NotHere(table[..count], i, j, BlockEntries(blocks[table[i].block]), h, name);
      }
      ino := None;
    }

    /** Lines 519-545: the leaf's entries and the new one, sorted by hash and packed in two halves. */
    method HalveLeaf(b: Buf, name: seq<byte>, ino: nat) returns (ok: bool, c0: Buf, c1: Buf, cut: nat,
        ghost s: seq<Item>)
      requires Tiled(b) && Short(BlockEntries(b)) && items.Length == MAX_ITEMS
      requires 1 <= |name| <= SHORT_NAME && 0 < ino < 0x1_0000_0000
      modifies items
      ensures ok <==> BlockEntries(b) != []
      ensures ok ==> Halved(b, h, name, ino, c0, c1, cut, s)
    {
      hide BlockEntries, Tiled, SortedItems, Packable, Hashed, Short, EntriesOf;
      var n := Collect(b, h, items);
      ghost var before := items[..n];
      items[n] := Item(h(name), ino, name);
      n := n + 1;
      assert items[..n] == before + [Item(h(name), ino, name)];
      SortItems(items, n);
      s := items[..n];
      var mid := n / 2;
      c0, c1, cut := b, b, 0;
      if mid < 1 || mid >= n {
        return false, c0, c1, cut, s;
      }
      SortedSet(b, h, name, ino, s);
      c0, c1 := PackHalves(mid, n, s);
      cut := items[mid].hash;
      ok := true;
    }

    method PackHalves(mid: nat, n: nat, ghost s: seq<Item>) returns (c0: Buf, c1: Buf)
      requires mid < n <= items.Length && s == items[..n]
      requires Packable(EntriesOf(s[..mid])) && Packable(EntriesOf(s[mid..]))
      ensures Tiled(c0) && BlockEntries(c0) == EntriesOf(s[..mid])
      ensures Tiled(c1) && BlockEntries(c1) == EntriesOf(s[mid..])
    {
      hide BlockEntries, Tiled, Packable, EntriesOf;
      assert items[0..0 + mid] == s[..mid];
      assert items[mid..mid + (n - mid)] == s[mid..];
      c0 := PackLeaf(items, 0, mid);
      c1 := PackLeaf(items, mid, n - mid);
    }

    /** Lines 602-607: memmove the slots after idx and fill the gap. */
    method InsertSlot(idx: nat, e: DxEntry)
      requires idx < count < table.Length
      modifies table, this`count
      ensures count == old(count) + 1 && table[..count] == SplitTable(old(table[..count]), idx, e)
    {
      ghost var es := table[..count];
      var k := count;
      while k > idx + 1
        invariant idx + 1 <= k <= count == old(count)
        invariant forall j :: 0 <= j < k ==> table[j] == es[j]
        invariant forall j :: k < j <= count ==> table[j] == es[j - 1]
      {
        table[k] := table[k - 1];
        k := k - 1;
      }
      table[idx + 1] := e;
      count := count + 1;
    }

    /** ext4_htree_split_leaf on a table with room.  The two leaves share out the old entries and the new
        one; routing stays exact precisely when the hashes on the two sides of the cut differ. */
    method SplitLeaf(leaf: nat, name: seq<byte>, ino: nat, ghost at: nat) returns (ok: bool, ghost s: seq<Item>)
      requires Shape() && Routed() && count < table.Length && table as object != items
      requires 1 <= |name| <= SHORT_NAME && 0 < ino < 0x1_0000_0000
      requires at < count && table[at].block == leaf && Covered(table[..count], at, h(name))
      modifies this`blocks, this`count, table, items
      ensures Shape()
      ensures ok <==> old(BlockEntries(blocks[leaf])) != []
      ensures !ok ==> blocks == old(blocks) && count == old(count) && table[..] == old(table[..])
      ensures ok ==>
        && |s| >= 2 && |blocks| == |old(blocks)| + 1 && (forall i :: 0 <= i < |old(blocks)| && i != leaf ==>
            blocks[i] == old(blocks[i]))
        && Halved(old(blocks[leaf]), h, name, ino, blocks[leaf], blocks[|old(blocks)|], s[|s| / 2].hash, s)
        && table[..count] == SplitTable(old(table[..count]), at, DxEntry(s[|s| / 2].hash, |old(blocks)|))
        && (Routed() <==> s[|s| / 2 - 1].hash < s[|s| / 2].hash)
    {
      hide BlockEntries, Tiled, SortedItems, Hashed, Short, Halved, SplitTable, EntriesRouted;
      ghost var es, blocks0 := table[..count], blocks;
      var idx := FindSlot(table[..count], leaf);
      assert idx == at;
      ghost var b := blocks[leaf];
      var c0, c1, cut;
      ok, c0, c1, cut, s := HalveLeaf(blocks[leaf], name, ino);
      if !ok {
        return;
      }
      AfterSplit(blocks0, es, h, at, leaf, name, ino, c0, c1, cut, s);
      blocks := blocks[leaf := c0];
      var newLeaf := |blocks|;
      blocks := blocks + [c1];
      InsertSlot(idx, DxEntry(cut, newLeaf));
    }
  }

  /** What a split makes of the leaf b and a new entry: s are all the items in order of their hashes, c0
      and c1 hold the two halves. */
  ghost predicate Halved(b: Buf, h: Hash, name: seq<byte>, ino: nat, c0: Buf, c1: Buf, cut: nat, s: seq<Item>) {
    && |s| >= 2 && SortedItems(s) && Hashed(s, h) && cut == s[|s| / 2].hash
    && Tiled(b) && Tiled(c0) && Tiled(c1)
    && BlockEntries(c0) == EntriesOf(s[..|s| / 2]) && BlockEntries(c1) == EntriesOf(s[|s| / 2..])
    && multiset(EntriesOf(s)) == multiset(BlockEntries(b)) + multiset{DirEntry(name, ino)}
  }

  lemma {:induction false} EntriesPermuted(a: seq<Item>, b: seq<Item>)
    requires multiset(a) == multiset(b)
    ensures multiset(EntriesOf(a)) == multiset(EntriesOf(b))
  {
    hide EntriesOf;
    assert |multiset(a)| == |multiset(b)|;
    if a != [] {
      var n := |a| - 1;
      var x := a[n];
      assert a == a[..n] + [x];
      assert x in multiset(b);
      var k :| 0 <= k < |b| && b[k] == x;
      var l, r := b[..k], b[k + 1..];
      assert b == l + [x] + r;
      Cancel(multiset(a[..n]), multiset(l), multiset(r), x, multiset(a));
      EntriesPermuted(a[..n], l + r);
      EntriesAround(l, x, r);
      EntriesAround(a[..n], x, []);
      assert a == a[..n] + [x] + [] && a[..n] + [] == a[..n];
    } else {
      assert b == [];
    }
  }

  lemma EntriesAround(l: seq<Item>, x: Item, r: seq<Item>)
    ensures multiset(EntriesOf(l + [x] + r)) == multiset(EntriesOf(l + r)) + multiset{DirEntry(x.name, x.ino)}
  {
    var e := DirEntry(x.name, x.ino);
    assert EntriesOf(l + [x] + r) == EntriesOf(l) + [e] + EntriesOf(r);
    assert EntriesOf(l + r) == EntriesOf(l) + EntriesOf(r);
  }

  /** The sorted items of a leaf and a new entry: the same entries, with their hashes, and packable in
      two halves. */
  lemma SortedSet(b: Buf, h: Hash, name: seq<byte>, ino: nat, s: seq<Item>)
    requires Tiled(b) && Short(BlockEntries(b)) && 1 <= |name| <= SHORT_NAME && 0 < ino < 0x1_0000_0000
    requires multiset(s) == multiset(ItemsOf(BlockEntries(b), h) + [Item(h(name), ino, name)])
    ensures |s| == |BlockEntries(b)| + 1 && Hashed(s, h)
    ensures multiset(EntriesOf(s)) == multiset(BlockEntries(b)) + multiset{DirEntry(name, ino)}
    ensures Packable(EntriesOf(s[..|s| / 2])) && Packable(EntriesOf(s[|s| / 2..]))
  {
    hide Tiles, Entries, Size, RecLen;
    SizeInBlock(b, 0, BLOCK);
    InoRange(b, 0, BLOCK);
    SameItems(BlockEntries(b), h, name, ino, s);
    HalvesFit(b, DirEntry(name, ino), EntriesOf(s));
    var mid := |s| / 2;
    assert EntriesOf(s)[..mid] == EntriesOf(s[..mid]) && EntriesOf(s)[mid..] == EntriesOf(s[mid..]);
  }

  lemma SameItems(es: seq<DirEntry>, h: Hash, name: seq<byte>, ino: nat, s: seq<Item>)
    requires multiset(s) == multiset(ItemsOf(es, h) + [Item(h(name), ino, name)])
    requires 1 <= |name| <= SHORT_NAME && 0 < ino < 0x1_0000_0000
    requires forall i :: 0 <= i < |es| ==> 1 <= |es[i].name| <= SHORT_NAME && 0 < es[i].ino < 0x1_0000_0000
    ensures |s| == |es| + 1 && Hashed(s, h)
    ensures multiset(EntriesOf(s)) == multiset(es) + multiset{DirEntry(name, ino)}
    ensures forall i :: 0 <= i < |s| ==> 1 <= |s[i].name| <= SHORT_NAME && 0 < s[i].ino < 0x1_0000_0000
  {
    var all := ItemsOf(es, h) + [Item(h(name), ino, name)];
    assert |multiset(s)| == |multiset(all)|;
    EntriesPermuted(s, all);
    assert EntriesOf(all) == es + [DirEntry(name, ino)];
    forall i | 0 <= i < |s|
      ensures s[i].hash == h(s[i].name) && 1 <= |s[i].name| <= SHORT_NAME && 0 < s[i].ino < 0x1_0000_0000
    {
      assert s[i] in multiset(all);
    }
  }

  lemma {:induction false} InoRange(b: Buf, lo: nat, hi: nat)
    requires hi <= BLOCK && Tiles(b, lo, hi)
    ensures forall i :: 0 <= i < |Entries(b, lo, hi)| ==> 0 < Entries(b, lo, hi)[i].ino < 0x1_0000_0000
    decreases hi - lo
  {
    hide RecOk, EntryAt, UsedAt, LenAt;
    if lo < hi {
      FirstRec(b, lo, hi);
      RecGrows(b, lo, hi);
      InoFits(b, lo);
      InoRange(b, lo + LenAt(b, lo), hi);
    }
  }

  lemma InoFits(b: Buf, off: nat)
    requires off + HEADER <= BLOCK && off + UsedAt(b, off) <= BLOCK
    ensures forall i :: 0 <= i < |EntryAt(b, off)| ==> 0 < EntryAt(b, off)[i].ino < 0x1_0000_0000
  {
  }

  /** All items of a leaf that is split hash to its slot, and their names are short. */
  lemma ItemsRouted(es: seq<DxEntry>, at: nat, b: Buf, h: Hash, name: seq<byte>, ino: nat, c0: Buf, c1: Buf, cut: nat,
                    s: seq<Item>)
    requires Halved(b, h, name, ino, c0, c1, cut, s) && at < |es| && EntriesRouted(es, at, BlockEntries(b), h)
    requires Covered(es, at, h(name)) && |name| <= SHORT_NAME && Short(BlockEntries(b))
    ensures AllRouted(es, at, s) && Short(BlockEntries(c0)) && Short(BlockEntries(c1))
  {
    hide BlockEntries, Tiled, Covered, SortedItems;
    forall k | 0 <= k < |s|
      ensures Covered(es, at, s[k].hash) && |s[k].name| <= SHORT_NAME
    {
      assert EntriesOf(s)[k] in multiset(EntriesOf(s));
      assert s[k].hash == h(s[k].name);
      if EntriesOf(s)[k] != DirEntry(name, ino) {
        assert EntriesOf(s)[k] in multiset(BlockEntries(b));
      }
    }
  }

  /** A half is routed to a slot as entries exactly when it is as items. */
  lemma HalfRouted(es: seq<DxEntry>, i: nat, s: seq<Item>, h: Hash)
    requires i < |es| && Hashed(s, h)
    ensures EntriesRouted(es, i, EntriesOf(s), h) <==> AllRouted(es, i, s)
  {
    hide Covered;
    if EntriesRouted(es, i, EntriesOf(s), h) {
      forall k | 0 <= k < |s|
        ensures Covered(es, i, s[k].hash)
      {
        assert Covered(es, i, h(EntriesOf(s)[k].name));
      }
    }
  }

  lemma LeafRouted(es: seq<DxEntry>, at: nat, e: DxEntry, j: nat, leaf: seq<DirEntry>, h: Hash)
    requires SortedDx(es) && at < |es| && j < |es| && j != at && Covered(es, at, e.hash)
    requires EntriesRouted(es, j, leaf, h)
    ensures EntriesRouted(SplitTable(es, at, e), if j < at then j else j + 1, leaf, h)
  {
    hide Covered, SplitTable, SortedDx;
    var i := if j < at then j else j + 1;
    assert |SplitTable(es, at, e)| == |es| + 1 by {
      TableSize(es, at, e);
    }
    forall k | 0 <= k < |leaf|
      ensures Covered(SplitTable(es, at, e), i, h(leaf[k].name))
    {
      OthersRouted(es, at, e, j, h(leaf[k].name));
    }
  }

  lemma TableSize(es: seq<DxEntry>, at: nat, e: DxEntry)
    requires at < |es|
    ensures var t := SplitTable(es, at, e);
            && |t| == |es| + 1 && t[at] == es[at] && t[at + 1] == e
            && (forall j :: 0 <= j < at ==> t[j] == es[j]) && (forall j :: at + 1 < j < |t| ==> t[j] == es[j - 1])
  {
  }

  lemma AfterSplit(blocks: seq<Buf>, es: seq<DxEntry>, h: Hash, at: nat, leaf: nat, name: seq<byte>, ino: nat,
                   c0: Buf, c1: Buf, cut: nat, s: seq<Item>)
    requires DxShape(blocks, es) && DxRouted(blocks, es, h) && at < |es| && es[at].block == leaf
    requires Covered(es, at, h(name)) && |name| <= SHORT_NAME
    requires Halved(blocks[leaf], h, name, ino, c0, c1, cut, s)
    ensures var t, bs := SplitTable(es, at, DxEntry(cut, |blocks|)), blocks[leaf := c0] + [c1];
            && |s| >= 2 && cut == s[|s| / 2].hash && DxShape(bs, t)
            && (DxRouted(bs, t, h) <==> s[|s| / 2 - 1].hash < s[|s| / 2].hash)
  {
    hide BlockEntries, Tiled, Covered, Short, EntriesRouted, AllRouted, SplitTable, SortedDx, SortedItems, Hashed;
    var t, bs, mid := SplitTable(es, at, DxEntry(cut, |blocks|)), blocks[leaf := c0] + [c1], |s| / 2;
    assert EntriesRouted(es, at, BlockEntries(blocks[es[at].block]), h);
    ItemsRouted(es, at, blocks[leaf], h, name, ino, c0, c1, cut, s);
    SplitRouted(es, at, s, mid, |blocks|);
    TableSize(es, at, DxEntry(cut, |blocks|));
    HashedHalves(s, h, mid);
    HalfRouted(t, at, s[..mid], h);
    HalfRouted(t, at + 1, s[mid..], h);
    CutCovered(es, at, s, mid);
    forall j | 0 <= j < |es| && j != at
      ensures EntriesRouted(t, if j < at then j else j + 1, BlockEntries(blocks[es[j].block]), h)
    {
      assert EntriesRouted(es, j, BlockEntries(blocks[es[j].block]), h);
      LeafRouted(es, at, DxEntry(cut, |blocks|), j, BlockEntries(blocks[es[j].block]), h);
    }
    assert bs[leaf] == c0 && bs[|blocks|] == c1 && t[at].block == leaf && t[at + 1].block == |blocks|;
    assert forall i :: 0 <= i < |blocks| && i != leaf ==> bs[i] == blocks[i];
    assert DxShape(bs, t);
    if AllRouted(t, at, s[..mid]) {
      forall i | 0 <= i < |t|
        ensures EntriesRouted(t, i, BlockEntries(bs[t[i].block]), h)
      {
        if i != at && i != at + 1 {
          var j := if i < at then i else i - 1;
          assert t[i] == es[j] && es[j].block != leaf;
        }
      }
    } else {
      assert !EntriesRouted(t, at, BlockEntries(bs[t[at].block]), h);
    }
  }

  lemma HashedHalves(s: seq<Item>, h: Hash, mid: nat)
    requires Hashed(s, h) && mid <= |s|
    ensures Hashed(s[..mid], h) && Hashed(s[mid..], h)
  {
  }

  lemma CutCovered(es: seq<DxEntry>, at: nat, s: seq<Item>, mid: nat)
    requires at < |es| && AllRouted(es, at, s) && mid < |s|
    ensures Covered(es, at, s[mid].hash)
  {
  }

  /** When all hashes are the same every cut goes through them. */
  lemma AllCollide(b: Buf, h: Hash, name: seq<byte>, ino: nat, c0: Buf, c1: Buf, cut: nat, s: seq<Item>)
    requires Halved(b, h, name, ino, c0, c1, cut, s)
    requires forall i :: 0 <= i < |BlockEntries(b)| ==> h(BlockEntries(b)[i].name) == h(name)
    ensures forall i :: 0 <= i < |s| ==> s[i].hash == h(name)
  {
    hide BlockEntries, Tiled;
    forall i | 0 <= i < |s|
      ensures s[i].hash == h(name)
    {
      assert EntriesOf(s)[i] in multiset(EntriesOf(s));
      if EntriesOf(s)[i] != DirEntry(name, ino) {
        assert EntriesOf(s)[i] in multiset(BlockEntries(b));
      }
    }
  }

  /** A leaf that holds the name "vff" is split to take "vgg": the two hash alike, and the index no longer
      leads to both. */
  method SplitColliding(signed: bool) returns (dir: IndexedDir)
    ensures fresh(dir) && dir.Shape() && !dir.Routed()
    ensures forall name :: dir.h(name) == Hash32(name, signed)
  {
    hide Tiled, BlockEntries, Packable, Hash32, Halved, DxRouted;
    Collide(signed);
    var h: Hash := name => Hash32(name, signed);
    var items := new Item[1](_ => Item(h(VFF), 11, VFF));
    OneEntry(items[0..1], VFF, 11);
    var root := PackLeaf(items, 0, 0);
    var leaf := PackLeaf(items, 0, 1);
    assert BlockEntries(leaf) == [DirEntry(VFF, 11)];
    assert BlockEntries(root) == [];
    dir := new IndexedDir(h, [root, leaf], [DxEntry(0, 1)], 2);
    assert dir.table[0] == dir.table[..dir.count][0];
    FirstRouting([root, leaf], dir.table[..dir.count], h);
    ghost var blocks := dir.blocks;
    var ok, s := dir.SplitLeaf(1, VGG, 12, 0);
    AllCollide(leaf, h, VGG, 12, dir.blocks[1], dir.blocks[2], s[|s| / 2].hash, s);
  }

  lemma OneEntry(s: seq<Item>, name: seq<byte>, ino: nat)
    requires |s| == 1 && s[0].name == name && s[0].ino == ino && |name| == 3 && 0 < ino < 0x1_0000_0000
    ensures EntriesOf(s) == [DirEntry(name, ino)] && Packable(EntriesOf(s)) && Packable([]) && EntriesOf([]) == []
  {
    assert EntriesOf(s)[..0] == [];
  }

  lemma FirstRouting(blocks: seq<Buf>, es: seq<DxEntry>, h: Hash)
    requires DxShape(blocks, es) && |es| == 1
    ensures DxRouted(blocks, es, h)
  {
  }

  /** Entries of a leaf that the hash of name does not lead to are not called name. */
  lemma NotHere(es: seq<DxEntry>, i: nat, j: nat, leaf: seq<DirEntry>, h: Hash, name: seq<byte>)
    requires i < |es| && j < |es| && EntriesRouted(es, i, leaf, h)
    requires forall k :: 0 <= k < |es| && Covered(es, k, h(name)) ==> k == j
    ensures i != j ==> Absent(leaf, name)
  {
    if i != j {
      forall k | 0 <= k < |leaf|
        ensures leaf[k].name != name
      {
        assert Covered(es, i, h(leaf[k].name));
      }
    }
  }

  lemma InBlock(b: Buf, name: seq<byte>, off: nat)
    requires FirstIn(b, name, off)
    ensures off + HEADER <= BLOCK && Tiled(b) && Has(BlockEntries(b), name, InoAt(b, off))
  {
    hide Tiles, Entries;
    SplitBlock(b, off);
    assert BlockEntries(b)[|Entries(b, 0, off)|] == EntryAt(b, off)[0];
  }
}
