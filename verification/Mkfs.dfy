/**
 Making a file system (ext4_mkfs in fs/ext4/super.c, block size 4096): how blocks are divided into
 groups, where the metadata of each group goes, and the bitmaps and counts written for it.  This is
 the first state of every run of the allocators.
 */
module Mkfs {
  import opened Runs
  import opened Bitmap
  import opened FreeSpace
  import opened Balloc
  import opened Ialloc

  const DESC_SIZE: nat := 32
  const INODE_SIZE: nat := 256
  const BLOCK: nat := 4096

  // ---------- geometry ----------

  function CeilDiv(a: nat, b: nat): nat
    requires 0 < b
  {
    (a + b - 1) / b
  }

  function PerGroup(total: nat): nat {
    if total <= BITS then total else BITS
  }

  function GeoOf(total: nat): Geo
    requires 0 < total
  {
    Geo(total, PerGroup(total), CeilDiv(total, PerGroup(total)))
  }

  lemma CeilBounds(a: nat, b: nat)
    requires 0 < a && 0 < b
    ensures 0 < CeilDiv(a, b) && (CeilDiv(a, b) - 1) * b < a <= CeilDiv(a, b) * b
  {
    var q, r := (a + b - 1) / b, (a + b - 1) % b;
    assert q * b + r == a + b - 1;
    assert (q - 1) * b == q * b - b;
    MulMono(q, 0, b);
  }

  /** Up to 32768 blocks are one group; more are divided into groups of 32768, the last of which may be short. */
  lemma GeoWf(total: nat)
    requires 0 < total
    ensures WfGeo(GeoOf(total)) && GeoOf(total).blocks == total
    ensures total <= 32768 ==> GeoOf(total).groups == 1 && GeoOf(total).perGroup == total
    ensures total > 32768 ==>
              GeoOf(total).perGroup == 32768 && (GeoOf(total).groups - 1) * 32768 < total <= GeoOf(total).groups * 32768
  {
    hide CeilDiv;
    CeilBounds(total, PerGroup(total));
    if total <= 32768 {
      OneGroup(total, CeilDiv(total, total));
    }
  }

  lemma OneGroup(n: nat, q: int)
    requires 0 < n && 0 < q && (q - 1) * n < n
    ensures q == 1
  {
    MulMono(1, q - 1, n);
  }

  /** The geometry ext4_new_blocks_in_group works out for itself (fs/ext4/balloc.c:346-387) from the
      block and group counts of the superblock and the size of the device in blocks, 0 if unknown. */
  function AllocGeo(sbBlocks: nat, sbGroups: nat, devBlocks: nat): Geo
    requires 0 < sbBlocks
  {
    var blocks := if 0 < devBlocks < sbBlocks then devBlocks else sbBlocks;
    var perGroup := PerGroup(blocks);
    var byGroups := sbGroups * perGroup % 0x1_0000_0000;
    var usable := if 0 < byGroups < blocks then byGroups else blocks;
    Geo(usable, perGroup, CeilDiv(usable, perGroup))
  }

  /** The blocks that allocation looks at are those of the superblock that the device has, if its size is known,
      and that lie in the groups of the superblock, if their number in 32 bits is not 0. */
  lemma AllocBlocks(sbBlocks: nat, sbGroups: nat, devBlocks: nat, b: nat)
    requires 0 < sbBlocks
    ensures var a := AllocGeo(sbBlocks, sbGroups, devBlocks);
            && WfGeo(a)
            && (b < a.blocks <==>
                && b < sbBlocks && (0 < devBlocks ==> b < devBlocks)
                && (0 < sbGroups * a.perGroup % 0x1_0000_0000 ==> b < sbGroups * a.perGroup % 0x1_0000_0000))
  {
    var blocks := if 0 < devBlocks < sbBlocks then devBlocks else sbBlocks;
    CeilBounds(AllocGeo(sbBlocks, sbGroups, devBlocks).blocks, PerGroup(blocks));
  }

  /** ext4_free_block divides by the group size of the superblock.  Allocation and freeing mean the same
      bit by every block number exactly when the group sizes are equal or one group holds everything. */
  lemma GroupSizesAgree(blocks: nat, p: nat, q: nat)
    requires 0 < p && 0 < q
    ensures (forall b: nat :: b < blocks ==> SamePlace(b, p, q)) <==> p == q || (blocks <= p && blocks <= q)
  {
    if p != q && !(blocks <= p && blocks <= q) {
      var b := if p < q then p else q;
      DivModUnique(b, b, 1, 0);
      assert !SamePlace(b, p, q);
    }
    if blocks <= p && blocks <= q {
      forall b: nat | b < blocks
        ensures SamePlace(b, p, q)
      {
        DivModUnique(b, p, 0, b);
        DivModUnique(b, q, 0, b);
      }
    }
  }

  /** The superblock of another mkfs may ask for smaller groups than allocation assumes: with 8192 blocks
      in a group, block 8192 is taken at bit 8192 of group 0 and given back at bit 0 of group 1. */
  lemma ForeignGroups()
    ensures var a := AllocGeo(65536, CeilDiv(65536, 8192), 0);
            WfGeo(a) && 8192 < a.blocks && !SamePlace(8192, a.perGroup, 8192)
  {
    var a := AllocGeo(65536, CeilDiv(65536, 8192), 0);
    GeoWf(65536);
    assert a == GeoOf(65536);
    assert 8192 / 32768 == 0;
  }

  predicate SamePlace(b: nat, p: nat, q: nat)
    requires 0 < p && 0 < q
  {
    b / p == b / q && b % p == b % q
  }

  /** On a volume made by mkfs the two agree, whatever the size of the device. */
  lemma MkfsGeometryAgrees(total: nat, devBlocks: nat)
    requires 0 < total < 0x1_0000_0000
    ensures devBlocks == 0 || total <= devBlocks ==> AllocGeo(total, GeoOf(total).groups, devBlocks) == GeoOf(total)
    ensures forall b: nat :: b < AllocGeo(total, GeoOf(total).groups, devBlocks).blocks ==>
              SamePlace(b, AllocGeo(total, GeoOf(total).groups, devBlocks).perGroup, PerGroup(total))
  {
    CeilBounds(total, PerGroup(total));
    var a := AllocGeo(total, GeoOf(total).groups, devBlocks);
    GroupSizesAgree(a.blocks, a.perGroup, PerGroup(total));
  }

  // ---------- layout of a group ----------

  function DescBlocks(geo: Geo): nat {
    CeilDiv(geo.groups * DESC_SIZE, BLOCK)
  }

  /** As many inodes as blocks in a group. */
  function TableBlocks(geo: Geo): nat {
    CeilDiv(geo.perGroup * INODE_SIZE, BLOCK)
  }

  /** The tables are just long enough: 32 bytes a group, 256 bytes an inode, as many inodes as blocks. */
  lemma TableSizes(geo: Geo)
    requires 0 < geo.groups && 0 < geo.perGroup
    ensures (DescBlocks(geo) - 1) * 4096 < 32 * geo.groups <= DescBlocks(geo) * 4096
    ensures (TableBlocks(geo) - 1) * 4096 < 256 * geo.perGroup <= TableBlocks(geo) * 4096
  {
    CeilBounds(geo.groups * DESC_SIZE, BLOCK);
    CeilBounds(geo.perGroup * INODE_SIZE, BLOCK);
  }

  /** The blocks that group g needs for its metadata. */
  function Needed(geo: Geo, g: nat): nat {
    1 + DescBlocks(geo) + 1 + 1 + TableBlocks(geo) + if g == 0 then 1 else 0
  }

  /** The blocks that mkfs marks in use at the beginning of group g. */
  function UsedIn(geo: Geo, g: nat): int {
    if Needed(geo, g) > GroupBlocks(geo, g) then GroupBlocks(geo, g) else Needed(geo, g)
  }

  ghost predicate Roomy(geo: Geo) {
    forall g: nat :: g < geo.groups ==> Needed(geo, g) <= GroupBlocks(geo, g)
  }

  /** Only the first and the last group need be looked at. */
  lemma RoomyEnds(geo: Geo)
    requires WfGeo(geo)
    ensures Roomy(geo) <==> Needed(geo, 0) <= GroupBlocks(geo, 0) && Needed(geo, geo.groups - 1) <= GroupBlocks(geo,
        geo.groups - 1)
  {
    hide DescBlocks, TableBlocks;
    if Needed(geo, 0) <= GroupBlocks(geo, 0) && Needed(geo, geo.groups - 1) <= GroupBlocks(geo, geo.groups - 1) {
      forall g: nat | g < geo.groups
        ensures Needed(geo, g) <= GroupBlocks(geo, g)
      {
        GroupFits(geo, 0);
        if g + 1 < geo.groups {
          NextStart(geo, g);
          assert Start(geo, g + 1) == Start(geo, g) + geo.perGroup;
        }
      }
    }
  }

  /** struct ext4_group_desc as far as mkfs fills it in. */
  datatype GroupDesc = GroupDesc(blockBitmap: nat, inodeBitmap: nat, inodeTable: nat, freeBlocks: nat, freeInodes: nat)

  function ReservedInodes(geo: Geo): nat {
    if geo.perGroup >= 10 then 10 else if geo.perGroup >= 2 then 2 else geo.perGroup
  }

  /** The blocks of the metadata of group g, each counted as often as it is used. */
  function MetaBlocks(geo: Geo, g: nat, d: GroupDesc): multiset<nat> {
    Run(Start(geo, g), 1) + Run(Start(geo, g) + 1, DescBlocks(geo)) + Run(d.blockBitmap, 1) + Run(d.inodeBitmap, 1) +
    Run(d.inodeTable, TableBlocks(geo)) +
    if g == 0 then Run(d.inodeTable + TableBlocks(geo), 1) else multiset{}
  }

  /** The pieces of metadata lie side by side and fill the first blocks of the group. */
  ghost predicate LaidOut(geo: Geo, g: nat, d: GroupDesc) {
    MetaBlocks(geo, g, d) == Run(Start(geo, g), Needed(geo, g))
  }

  /** Behind superblock and descriptors come block bitmap, inode bitmap and inode table. */
  predicate InPlace(geo: Geo, g: nat, d: GroupDesc) {
    d.blockBitmap == Start(geo, g) + 1 + DescBlocks(geo) && d.inodeBitmap == d.blockBitmap + 1 &&
    d.inodeTable == d.inodeBitmap + 1
  }

  lemma SideBySide(geo: Geo, g: nat, d: GroupDesc)
    requires InPlace(geo, g, d)
    ensures LaidOut(geo, g, d)
  {
    hide Run, DescBlocks, TableBlocks;
    var s, n, t := Start(geo, g), DescBlocks(geo), TableBlocks(geo);
    RunSplit(s, 1, n);
    RunSplit(s, 1 + n, 1);
    RunSplit(s, 1 + n + 1, 1);
    RunSplit(s, 1 + n + 1 + 1, t);
    if g == 0 {
      RunSplit(s, 1 + n + 1 + 1 + t, 1);
    }
  }

  // ---------- bitmaps ----------

  function NoBits(): Bits {
    seq(BLOCK_SIZE, _ => 0)
  }

  /** The first n bits and all bits from m on are set. */
  function EndBits(n: nat, m: nat): Bits
    requires n <= m <= BITS
  {
    SetRun(SetRun(NoBits(), 0, n), m, BITS - m)
  }

  lemma EndBitsAt(n: nat, m: nat, k: nat)
    requires n <= m <= BITS && k < BITS
    ensures Bit(EndBits(n, m), k) <==> k < n || m <= k
  {
    BitAfterSetRun(NoBits(), 0, n, k);
    BitAfterSetRun(SetRun(NoBits(), 0, n), m, BITS - m, k);
    NoBitsClear(k);
  }

  lemma NoBitsClear(k: nat)
    requires k < BITS
    ensures !Bit(NoBits(), k)
  {
  }

  lemma {:induction false} CountPrefix(m: Bits, n: nat, k: nat)
    requires k <= BITS && forall j :: 0 <= j < k ==> (Bit(m, j) <==> j < n)
    ensures FreeCount(m, k) == if n <= k then k - n else 0
  {
    hide Bit;
    if k > 0 {
      CountPrefix(m, n, k - 1);
    }
  }

  lemma EndBitsCount(n: nat, m: nat)
    requires n <= m <= BITS
    ensures FreeCount(EndBits(n, m), m) == m - n
  {
    hide Bit, EndBits;
    forall j | 0 <= j < m
      ensures Bit(EndBits(n, m), j) <==> j < n
    {
      EndBitsAt(n, m, j);
    }
    CountPrefix(EndBits(n, m), n, m);
  }

  /** The two loops that fill a bitmap. */
  method FillBitmap(n: nat, m: nat) returns (bits: Bits)
    requires n <= m <= BITS
    ensures bits == EndBits(n, m)
  {
    hide SetBit;
    var buf := new bv8[BLOCK_SIZE](_ => 0);
    assert buf[..] == NoBits();
    for i := 0 to n
      invariant buf[..] == SetRun(NoBits(), 0, i)
    {
      RaiseBit(buf, i);
    }
    ghost var first: Bits := buf[..];
    for i := m to BITS
      invariant buf[..] == SetRun(first, m, i - m)
    {
      RaiseBit(buf, i);
    }
    bits := buf[..];
  }

  // ---------- mkfs ----------

  ghost predicate Formatted(geo: Geo, g: nat, d: GroupDesc, blockMap: Bits, inodeMap: Bits) {
    && 0 <= UsedIn(geo, g) <= GroupBlocks(geo, g) <= BITS && ReservedInodes(geo) <= geo.perGroup <= BITS
    && LaidOut(geo, g, d) && InPlace(geo, g, d)
    && d.freeBlocks == GroupBlocks(geo, g) - UsedIn(geo, g)
    && d.freeInodes == geo.perGroup - (if g == 0 then ReservedInodes(geo) else 0)
    && blockMap == EndBits(UsedIn(geo, g), GroupBlocks(geo, g))
    && inodeMap == EndBits(if g == 0 then ReservedInodes(geo) else 0, geo.perGroup)
  }

  method FormatGroup(geo: Geo, g: nat) returns (d: GroupDesc, blockMap: Bits, inodeMap: Bits)
    requires WfGeo(geo) && g < geo.groups
    ensures Formatted(geo, g, d, blockMap, inodeMap)
  {
    hide DescBlocks, TableBlocks, EndBits, LaidOut;
    GroupFits(geo, g);
    var start, blocks := Start(geo, g), GroupBlocks(geo, g);
    var used := 1 + DescBlocks(geo) + 1 + 1 + TableBlocks(geo);
    if g == 0 {
      used := used + 1;
    }
    if used > blocks {
      used := blocks;
    }
    var bitmap := start + 1 + DescBlocks(geo);
    var reserved := if g == 0 then ReservedInodes(geo) else 0;
    d := GroupDesc(bitmap, bitmap + 1, bitmap + 2, (blocks - used) % 0x1_0000, (geo.perGroup - reserved) % 0x1_0000);
    SideBySide(geo, g, d);
    blockMap := FillBitmap(used, blocks);
    inodeMap := FillBitmap(reserved, geo.perGroup);
  }

  ghost predicate AllFormatted(geo: Geo, descs: seq<GroupDesc>, blockMaps: seq<Bits>, inodeMaps: seq<Bits>) {
    && |descs| == |blockMaps| == |inodeMaps|
    && forall g :: 0 <= g < |descs| ==> Formatted(geo, g, descs[g], blockMaps[g], inodeMaps[g])
  }

  method Format(total: nat) returns (geo: Geo, descs: seq<GroupDesc>, blockMaps: seq<Bits>, inodeMaps: seq<Bits>)
    requires 0 < total
    ensures geo == GeoOf(total) && WfGeo(geo) && |descs| == geo.groups && AllFormatted(geo, descs, blockMaps, inodeMaps)
  {
    hide Formatted;
    geo := GeoOf(total);
    GeoWf(total);
    descs, blockMaps, inodeMaps := [], [], [];
    for g := 0 to geo.groups
      invariant |descs| == g && AllFormatted(geo, descs, blockMaps, inodeMaps)
    {
      var d, b, i := FormatGroup(geo, g);
      descs, blockMaps, inodeMaps := descs + [d], blockMaps + [b], inodeMaps + [i];
    }
  }

  /** The free counts of the descriptors. */
  function BlockCounts(descs: seq<GroupDesc>): (c: seq<nat>)
    ensures |c| == |descs| && forall g :: 0 <= g < |descs| ==> c[g] == descs[g].freeBlocks
  {
    seq(|descs|, g requires 0 <= g < |descs| => descs[g].freeBlocks)
  }

  function InodeCounts(descs: seq<GroupDesc>): (c: seq<nat>)
    ensures |c| == |descs| && forall g :: 0 <= g < |descs| ==> c[g] == descs[g].freeInodes
  {
    seq(|descs|, g requires 0 <= g < |descs| => descs[g].freeInodes)
  }

  /** The inodes of a volume, with the same number in every group. */
  function InodeGeo(geo: Geo): Geo {
    Geo(geo.groups * geo.perGroup, geo.perGroup, geo.groups)
  }

  /** The free blocks are those behind the metadata of their group. */
  ghost predicate BehindMetadata(geo: Geo, free: set<nat>)
    requires 0 < geo.perGroup
  {
    forall b: nat :: b in free <==> Behind(geo, b)
  }

  predicate Behind(geo: Geo, b: nat)
    requires 0 < geo.perGroup
  {
    b < geo.blocks && b % geo.perGroup >= UsedIn(geo, b / geo.perGroup)
  }

  /** A fresh volume satisfies what the allocators keep: every count is right, for blocks and for inodes. */
  lemma MkfsCounts(geo: Geo, descs: seq<GroupDesc>, blockMaps: seq<Bits>, inodeMaps: seq<Bits>)
    requires WfGeo(geo) && |descs| == geo.groups && AllFormatted(geo, descs, blockMaps, inodeMaps)
    ensures CountsMatch(geo, blockMaps, BlockCounts(descs))
    ensures WfGeo(InodeGeo(geo)) && CountsMatch(InodeGeo(geo), inodeMaps, InodeCounts(descs))
  {
    hide Formatted, EndBits, FreeCount, WfGeo, GroupBlocks;
    InodeGeoWf(geo);
    forall g: nat | g < geo.groups
      ensures 0 <= GroupBlocks(geo, g) <= BITS && BlockCounts(descs)[g] == FreeCount(blockMaps[g], GroupBlocks(geo, g))
      ensures 0 <= GroupBlocks(InodeGeo(geo), g) <= BITS
      ensures InodeCounts(descs)[g] == FreeCount(inodeMaps[g], GroupBlocks(InodeGeo(geo), g))
    {
      GroupCounts(geo, g, descs[g], blockMaps[g], inodeMaps[g]);
    }
  }

  lemma GroupCounts(geo: Geo, g: nat, d: GroupDesc, blockMap: Bits, inodeMap: Bits)
    requires WfGeo(geo) && g < geo.groups && Formatted(geo, g, d, blockMap, inodeMap)
    ensures 0 <= GroupBlocks(geo, g) <= BITS && d.freeBlocks == FreeCount(blockMap, GroupBlocks(geo, g))
    ensures GroupBlocks(InodeGeo(geo), g) == geo.perGroup <= BITS && d.freeInodes == FreeCount(inodeMap, geo.perGroup)
  {
    hide EndBits, FreeCount, LaidOut, Needed;
    EndBitsCount(UsedIn(geo, g), GroupBlocks(geo, g));
    EndBitsCount(if g == 0 then ReservedInodes(geo) else 0, geo.perGroup);
    InodeGroups(geo, g);
  }

  lemma MkfsFree(geo: Geo, descs: seq<GroupDesc>, blockMaps: seq<Bits>, inodeMaps: seq<Bits>)
    requires WfGeo(geo) && |descs| == geo.groups && AllFormatted(geo, descs, blockMaps, inodeMaps)
    ensures BehindMetadata(geo, FreeSet(geo, blockMaps))
  {
    hide Formatted, Behind, WfGeo;
    InGeo(geo, blockMaps);
    forall b: nat
      ensures b in FreeSet(geo, blockMaps) <==> Behind(geo, b)
    {
      FreeBehind(geo, descs, blockMaps, inodeMaps, b);
    }
  }

  lemma InGeo(geo: Geo, blockMaps: seq<Bits>)
    requires WfGeo(geo)
    ensures 0 < geo.perGroup <= BITS
  {
  }

  lemma FreeBehind(geo: Geo, descs: seq<GroupDesc>, blockMaps: seq<Bits>, inodeMaps: seq<Bits>, b: nat)
    requires WfGeo(geo) && |descs| == geo.groups && AllFormatted(geo, descs, blockMaps, inodeMaps)
    ensures b in FreeSet(geo, blockMaps) <==> Behind(geo, b)
  {
    hide Bit, Formatted, GroupBlocks, UsedIn, Start;
    if b < geo.blocks {
      Locate(geo, b);
      var g, i := b / geo.perGroup, b % geo.perGroup;
      assert Formatted(geo, g, descs[g], blockMaps[g], inodeMaps[g]);
      FormattedBit(geo, g, i, descs[g], blockMaps[g], inodeMaps[g]);
      FreeAt(geo, blockMaps, g, i);
    }
  }

  lemma FormattedBit(geo: Geo, g: nat, i: nat, d: GroupDesc, blockMap: Bits, inodeMap: Bits)
    requires Formatted(geo, g, d, blockMap, inodeMap) && i < GroupBlocks(geo, g)
    ensures i < BITS && (!Bit(blockMap, i) <==> i >= UsedIn(geo, g))
  {
    hide Bit, EndBits, LaidOut, Needed, UsedIn, GroupBlocks;
    EndBitsAt(UsedIn(geo, g), GroupBlocks(geo, g), i);
  }

  lemma InodeGeoWf(geo: Geo)
    requires WfGeo(geo)
    ensures WfGeo(InodeGeo(geo))
  {
    assert (geo.groups - 1) * geo.perGroup == geo.groups * geo.perGroup - geo.perGroup;
  }

  lemma InodeGroups(geo: Geo, g: nat)
    requires WfGeo(geo) && g < geo.groups
    ensures GroupBlocks(InodeGeo(geo), g) == geo.perGroup
  {
    MulMono(g + 1, geo.groups, geo.perGroup);
    assert (g + 1) * geo.perGroup == g * geo.perGroup + geo.perGroup;
  }

  /** The metadata blocks of a roomy volume are in range, used by one piece each, and none of them is free. */
  lemma MetadataApart(geo: Geo, descs: seq<GroupDesc>, blockMaps: seq<Bits>, inodeMaps: seq<Bits>, g: nat, h: nat,
      b: nat)
    requires WfGeo(geo) && Roomy(geo) && |descs| == geo.groups && AllFormatted(geo, descs, blockMaps, inodeMaps)
    requires g < geo.groups && h < geo.groups && b in MetaBlocks(geo, g, descs[g])
    ensures MetaBlocks(geo, g, descs[g])[b] == 1 && b < geo.blocks && b !in FreeSet(geo, blockMaps)
    ensures g != h ==> b !in MetaBlocks(geo, h, descs[h])
  {
    hide MetaBlocks, Bit, EndBits, FreeSet, Needed;
    MkfsFree(geo, descs, blockMaps, inodeMaps);
    assert Formatted(geo, g, descs[g], blockMaps[g], inodeMaps[g]);
    assert Formatted(geo, h, descs[h], blockMaps[h], inodeMaps[h]);
    assert InRun(b, Start(geo, g), Needed(geo, g));
    LocateAt(geo, g, b - Start(geo, g));
    if g != h && InRun(b, Start(geo, h), Needed(geo, h)) {
      LocateAt(geo, h, b - Start(geo, h));
    }
  }

  /** A block of a roomy volume is in use exactly when it holds metadata. */
  lemma UsedIsMetadata(geo: Geo, descs: seq<GroupDesc>, blockMaps: seq<Bits>, inodeMaps: seq<Bits>, b: nat)
    requires WfGeo(geo) && Roomy(geo) && |descs| == geo.groups && AllFormatted(geo, descs, blockMaps, inodeMaps)
    requires b < geo.blocks
    ensures b / geo.perGroup < geo.groups
    ensures b !in FreeSet(geo, blockMaps) <==> b in MetaBlocks(geo, b / geo.perGroup, descs[b / geo.perGroup])
  {
    hide MetaBlocks, Bit, EndBits, FreeSet, Needed;
    Locate(geo, b);
    var g := b / geo.perGroup;
    MkfsFree(geo, descs, blockMaps, inodeMaps);
    assert Formatted(geo, g, descs[g], blockMaps[g], inodeMaps[g]);
    assert InRun(b, Start(geo, g), Needed(geo, g)) <==> b - Start(geo, g) < Needed(geo, g);
  }

  // ---------- the inodes of a fresh volume ----------

  /** Inode number i + 1 is free on a fresh volume: all from 11 on when a group has ten inodes at least, all
      from 3 on when it has fewer but two at least, and none when there is only one. */
  predicate FreshInode(geo: Geo, i: nat) {
    i < geo.groups * geo.perGroup && (if geo.perGroup >= 10 then 10 <= i else 2 <= i)
  }

  lemma FreshInodes(geo: Geo, descs: seq<GroupDesc>, blockMaps: seq<Bits>, inodeMaps: seq<Bits>, i: nat)
    requires WfGeo(geo) && |descs| == geo.groups && AllFormatted(geo, descs, blockMaps, inodeMaps)
    requires geo.perGroup < BITS ==> geo.groups == 1
    ensures i in FreeSet(InodeGeo(geo), inodeMaps) <==> FreshInode(geo, i)
  {
    hide Bit, LaidOut, Needed, UsedIn, EndBits;
    var ig := InodeGeo(geo);
    InodeGeoWf(geo);
    if i < ig.blocks {
      Locate(ig, i);
      var g, k := i / ig.perGroup, i % ig.perGroup;
      assert Formatted(geo, g, descs[g], blockMaps[g], inodeMaps[g]);
      InodeGroups(geo, g);
      FreeAt(ig, inodeMaps, g, k);
      EndBitsAt(if g == 0 then ReservedInodes(geo) else 0, geo.perGroup, k);
      if g > 0 {
        MulMono(1, g, geo.perGroup);
      }
    }
  }

  lemma AllFresh(geo: Geo, descs: seq<GroupDesc>, blockMaps: seq<Bits>, inodeMaps: seq<Bits>)
    requires WfGeo(geo) && |descs| == geo.groups && AllFormatted(geo, descs, blockMaps, inodeMaps)
    requires geo.perGroup < BITS ==> geo.groups == 1
    ensures forall i: nat :: i in FreeSet(InodeGeo(geo), inodeMaps) <==> FreshInode(geo, i)
  {
    forall i: nat
      ensures i in FreeSet(InodeGeo(geo), inodeMaps) <==> FreshInode(geo, i)
    {
      FreshInodes(geo, descs, blockMaps, inodeMaps, i);
    }
  }

  /** The inodes that are free on a fresh volume, counted. */
  lemma InodeTotal(geo: Geo, descs: seq<GroupDesc>, blockMaps: seq<Bits>, inodeMaps: seq<Bits>)
    requires WfGeo(geo) && |descs| == geo.groups && AllFormatted(geo, descs, blockMaps, inodeMaps)
    ensures WfGeo(InodeGeo(geo))
    ensures |FreeSet(InodeGeo(geo), inodeMaps)| == geo.groups * geo.perGroup - ReservedInodes(geo)
  {
    hide AllFormatted, FreeSet, CountsMatch, ReservedInodes;
    MkfsCounts(geo, descs, blockMaps, inodeMaps);
    SumIsFree(InodeGeo(geo), inodeMaps, InodeCounts(descs));
    InodesPerGroup(geo, descs, blockMaps, inodeMaps);
    SumInodes(InodeCounts(descs), geo.perGroup, ReservedInodes(geo));
  }

  lemma {:induction false} SumInodes(counts: seq<nat>, per: nat, reserved: nat)
    requires reserved <= per && forall g :: 0 <= g < |counts| ==> counts[g] == if g == 0 then per - reserved else per
    ensures Sum(counts) == |counts| * per - if counts == [] then 0 else reserved
  {
    if counts != [] {
      var n := |counts| - 1;
      SumInodes(counts[..n], per, reserved);
      assert |counts| * per == n * per + per;
    }
  }

  lemma InodesPerGroup(geo: Geo, descs: seq<GroupDesc>, blockMaps: seq<Bits>, inodeMaps: seq<Bits>)
    requires |descs| == geo.groups && AllFormatted(geo, descs, blockMaps, inodeMaps) && 0 < geo.groups
    ensures ReservedInodes(geo) <= geo.perGroup
    ensures forall g :: 0 <= g < |descs| ==>
              descs[g].freeInodes == if g == 0 then geo.perGroup - ReservedInodes(geo) else geo.perGroup
  {
    hide LaidOut, EndBits, UsedIn;
    assert Formatted(geo, 0, descs[0], blockMaps[0], inodeMaps[0]);
    forall g | 0 <= g < |descs|
      ensures descs[g].freeInodes == if g == 0 then geo.perGroup - ReservedInodes(geo) else geo.perGroup
    {
      assert Formatted(geo, g, descs[g], blockMaps[g], inodeMaps[g]);
    }
  }

  /** s_free_inodes_count, in 32 bits */
  function SuperInodes(geo: Geo): nat {
    (geo.groups * geo.perGroup - ReservedInodes(geo)) % 0x1_0000_0000
  }

  lemma FitsTotal(total: nat)
    requires 0 < total < 0x1_0000_0000
    ensures SuperInodes(GeoOf(total)) == GeoOf(total).groups * GeoOf(total).perGroup - ReservedInodes(GeoOf(total))
  {
    GeoWf(total);
    var g := GeoOf(total).groups;
    if total > 32768 {
      assert g <= 0x2_0000;
      assert g * 32768 <= 0x2_0000 * 32768;
    }
  }

  /** The inode allocator of a fresh volume. */
  method MkfsInodes(total: nat) returns (inodes: InodeAllocator)
    requires 0 < total
    ensures fresh(inodes) && inodes.Valid() && inodes.geo == InodeGeo(GeoOf(total))
    ensures total < 0x1_0000_0000 ==> inodes.superFree == |inodes.Free()|
    ensures forall i: nat :: i in inodes.Free() <==> FreshInode(GeoOf(total), i)
    ensures total >= 2 ==> BAD_INODE - 1 !in inodes.Free() && ROOT_INODE - 1 !in inodes.Free()
  {
    hide AllFormatted, CountsMatch, FreeSet, SuperInodes, InodeCounts, WfGeo, GeoOf;
    var geo, descs, blockMaps, inodeMaps := Format(total);
    MkfsCounts(geo, descs, blockMaps, inodeMaps);
    GeoWf(total);
    AllFresh(geo, descs, blockMaps, inodeMaps);
    if total < 0x1_0000_0000 {
      FitsTotal(total);
      InodeTotal(geo, descs, blockMaps, inodeMaps);
    }
    inodes := new InodeAllocator(InodeGeo(geo), inodeMaps, InodeCounts(descs), SuperInodes(geo));
  }

  const BAD_INODE: nat := 1
  const ROOT_INODE: nat := 2

  /** The first inode handed out is number 11, when there is one. */
  method FirstInode(total: nat) returns (ino: nat)
    requires 11 <= total
    ensures ino == 11
  {
    hide FreeSet, Bit, LowestFree, WfGeo;
    var inodes := MkfsInodes(total);
    ghost var geo, maps := inodes.geo, inodes.maps;
    GeoWf(total);
    InodeGeoWf(GeoOf(total));
    EnoughInodes(total);
    assert 10 in inodes.Free();
    ino := inodes.New(0);
    LowestIsTen(geo, maps, ino - 1);
  }

  lemma EnoughInodes(total: nat)
    requires 11 <= total
    ensures GeoOf(total).perGroup >= 11 && 11 <= GeoOf(total).groups * GeoOf(total).perGroup
  {
    CeilBounds(total, PerGroup(total));
    MulMono(1, GeoOf(total).groups, PerGroup(total));
  }

  lemma LowestIsTen(geo: Geo, maps: seq<Bits>, b: nat)
    requires WfGeo(geo) && |maps| == geo.groups && geo.perGroup >= 11 && geo.blocks >= 11
    requires 10 in FreeSet(geo, maps) && forall i: nat :: i < 10 ==> i !in FreeSet(geo, maps)
    requires LowestFree(geo, maps, 0, b) && b in FreeSet(geo, maps)
    ensures b == 10
  {
    hide Bit, GroupBlocks;
    Locate(geo, 10);
    DivModUnique(10, geo.perGroup, 0, 10);
    Locate(geo, b);
    assert !Full(geo, maps, 0);
    assert b / geo.perGroup == 0;
  }

  // ---------- runs of the inode allocator ----------

  /** What New and Release do to the free inodes: taking one that is free, giving one back. */
  ghost predicate InodeStep(free: set<nat>, free': set<nat>, ino: nat, taken: bool) {
    0 < ino && if taken then ino - 1 in free && free' == free - {ino - 1} else free' == free + {ino - 1}
  }

  /** Over every run on a fresh volume on which nobody gives back the root's inode it is never handed out. */
  lemma {:induction false} RootStays(geo: Geo, run: seq<set<nat>>, inos: seq<nat>, taken: seq<bool>, n: nat)
    requires geo.perGroup >= 2 && |run| == |inos| + 1 == |taken| + 1 && n < |run|
    requires forall i: nat :: i in run[0] <==> FreshInode(geo, i)
    requires forall k :: 0 <= k < |inos| ==> InodeStep(run[k], run[k + 1], inos[k], taken[k])
    requires forall k :: 0 <= k < |inos| && !taken[k] ==> inos[k] != ROOT_INODE
    ensures ROOT_INODE - 1 !in run[n] && (n < |inos| && taken[n] ==> inos[n] != ROOT_INODE)
  {
    if n > 0 {
      RootStays(geo, run, inos, taken, n - 1);
      assert InodeStep(run[n - 1], run[n], inos[n - 1], taken[n - 1]);
    }
    if n < |inos| {
      assert InodeStep(run[n], run[n + 1], inos[n], taken[n]);
    }
  }

  /** Mounting a fresh volume gives a valid allocator. */
  method MkfsAndMount(total: nat, batch: nat) returns (alloc: Allocator)
    requires 0 < total && 1 <= batch
    ensures fresh(alloc) && alloc.Valid() && alloc.geo == GeoOf(total) && BehindMetadata(alloc.geo, alloc.Free())
    ensures Countable(alloc.geo, alloc.maps, total) <==> total % PerGroup(total) == 0
  {
    hide AllFormatted, CountsMatch, BehindMetadata, FreeSet, Countable;
    var geo, descs, blockMaps, inodeMaps := Format(total);
    MkfsCounts(geo, descs, blockMaps, inodeMaps);
    MkfsFree(geo, descs, blockMaps, inodeMaps);
    TailSet(geo, descs, blockMaps, inodeMaps);
    alloc := new Allocator.Mount(geo, blockMaps, BlockCounts(descs), 0, batch);
  }

  /** The first block that a fresh volume hands out for group g is the one behind its metadata. */
  lemma FirstBlock(geo: Geo, maps: seq<Bits>, cursors: seq<nat>, goalGroup: nat, g: nat, blk: nat, len: nat)
    requires WfGeo(geo) && |maps| == |cursors| == geo.groups && BehindMetadata(geo, FreeSet(geo, maps))
    requires forall h :: 0 <= h < geo.groups ==> cursors[h] == 1
    requires g < geo.groups && UsedIn(geo, g) < GroupBlocks(geo, g)
    requires NextFit(geo, maps, cursors, goalGroup, 1, g, blk, len)
    ensures blk == Start(geo, g) + UsedIn(geo, g) && len == 1
  {
    hide Bit, FreeSet, Needed, UsedIn, NextFit, Behind;
    var u := UsedIn(geo, g);
    AtLeastFour(geo, g);
    GroupFits(geo, g);
    ClearBehind(geo, maps, g, u);
    assert !GroupFull(geo, maps, g);
    PreferredAnswers(geo, maps, cursors, goalGroup, g, blk, len);
    NextFitPlace(geo, maps, cursors, goalGroup, g, blk, len);
    var i := blk % geo.perGroup;
    assert ClearRun(maps[g], u, 1);
    ClearBehind(geo, maps, g, i);
  }

  lemma AtLeastFour(geo: Geo, g: nat)
    requires UsedIn(geo, g) < GroupBlocks(geo, g)
    ensures 1 <= UsedIn(geo, g)
  {
  }

  lemma ClearBehind(geo: Geo, maps: seq<Bits>, g: nat, i: nat)
    requires WfGeo(geo) && |maps| == geo.groups && BehindMetadata(geo, FreeSet(geo, maps))
    requires g < geo.groups && i < GroupBlocks(geo, g) <= BITS
    ensures !Bit(maps[g], i) <==> i >= UsedIn(geo, g)
  {
    hide Bit, UsedIn, FreeSet, Start, GroupBlocks;
    FreeAt(geo, maps, g, i);
    LocateAt(geo, g, i);
    assert Behind(geo, Start(geo, g) + i) <==> i >= UsedIn(geo, g);
  }

  lemma NextFitPlace(geo: Geo, maps: seq<Bits>, cursors: seq<nat>, goalGroup: nat, g: nat, blk: nat, len: nat)
    requires WfGeo(geo) && |maps| == |cursors| == geo.groups && g < geo.groups && cursors[g] == 1
    requires NextFit(geo, maps, cursors, goalGroup, 1, g, blk, len) && blk / geo.perGroup == g
    ensures blk == Start(geo, g) + blk % geo.perGroup && 0 <= GroupBlocks(geo, g) <= BITS
    ensures 1 <= blk % geo.perGroup < GroupBlocks(geo, g) && len == 1
    ensures ClearRun(maps[g], blk % geo.perGroup, 1) && NoRun(maps[g], 1, blk % geo.perGroup, 1)
  {
    hide Bit, FirstSuch, GroupBlocks;
  }

  /** When the last group is short, its tail bits are set: freeing the number behind the last block would
      upset the counts. */
  lemma TailSet(geo: Geo, descs: seq<GroupDesc>, blockMaps: seq<Bits>, inodeMaps: seq<Bits>)
    requires WfGeo(geo) && |descs| == geo.groups && AllFormatted(geo, descs, blockMaps, inodeMaps)
    ensures Countable(geo, blockMaps, geo.blocks) <==> geo.blocks % geo.perGroup == 0
  {
    hide Bit, EndBits, LaidOut, Needed, UsedIn, GroupBlocks, WfGeo;
    BehindLast(geo);
    if geo.blocks % geo.perGroup != 0 {
      var g := geo.groups - 1;
      assert Formatted(geo, g, descs[g], blockMaps[g], inodeMaps[g]);
      EndBitsAt(UsedIn(geo, g), GroupBlocks(geo, g), geo.blocks % geo.perGroup);
    }
  }

  /** Where the number behind the last block would lie. */
  lemma BehindLast(geo: Geo)
    requires WfGeo(geo)
    ensures 0 < geo.groups && 0 < geo.perGroup <= BITS
    ensures geo.blocks % geo.perGroup == 0 ==> geo.blocks / geo.perGroup == geo.groups
    ensures geo.blocks % geo.perGroup != 0 ==>
              geo.blocks / geo.perGroup == geo.groups - 1 &&
              GroupBlocks(geo, geo.groups - 1) == geo.blocks % geo.perGroup
  {
    var g, i := geo.groups - 1, geo.blocks - (geo.groups - 1) * geo.perGroup;
    assert geo.groups * geo.perGroup == g * geo.perGroup + geo.perGroup;
    if i == geo.perGroup {
      DivModUnique(geo.blocks, geo.perGroup, geo.groups, 0);
    } else {
      DivModUnique(geo.blocks, geo.perGroup, g, i);
    }
  }

  // ---------- where an inode lies ----------

  /** ext4_get_inode_disk_loc: the block and the offset of an inode of group g, index i, whose table
      begins at table. */
  function InodeSlot(table: nat, i: nat): (nat, nat) {
    (table + i * INODE_SIZE / BLOCK, i * INODE_SIZE % BLOCK)
  }

  /** The slot lies within the table of the group. */
  lemma SlotInTable(geo: Geo, d: GroupDesc, i: nat)
    requires WfGeo(geo) && i < geo.perGroup
    ensures var (b, o) := InodeSlot(d.inodeTable, i);
            InRun(b, d.inodeTable, TableBlocks(geo)) && o + INODE_SIZE <= BLOCK
  {
    CeilBounds(geo.perGroup * INODE_SIZE, BLOCK);
  }

  predicate SlotsApart(x: (nat, nat), y: (nat, nat)) {
    x.0 != y.0 || x.1 + INODE_SIZE <= y.1 || y.1 + INODE_SIZE <= x.1
  }

  /** Two inodes never share a byte of the disk: index i of group g and index j of group h. */
  lemma InodeSlotsApart(geo: Geo, descs: seq<GroupDesc>, blockMaps: seq<Bits>, inodeMaps: seq<Bits>,
                        g: nat, i: nat, h: nat, j: nat)
    requires WfGeo(geo) && Roomy(geo) && |descs| == geo.groups && AllFormatted(geo, descs, blockMaps, inodeMaps)
    requires g < geo.groups && h < geo.groups && i < geo.perGroup && j < geo.perGroup && (g, i) != (h, j)
    ensures SlotsApart(InodeSlot(descs[g].inodeTable, i), InodeSlot(descs[h].inodeTable, j))
  {
    hide TableBlocks, DescBlocks, AllFormatted, Roomy;
    SlotInTable(geo, descs[g], i);
    SlotInTable(geo, descs[h], j);
    if g != h {
      var x, y := InodeSlot(descs[g].inodeTable, i), InodeSlot(descs[h].inodeTable, j);
      InMeta(geo, g, descs[g], x.0);
      InMeta(geo, h, descs[h], y.0);
      MetadataApart(geo, descs, blockMaps, inodeMaps, g, h, x.0);
    }
  }

  lemma InMeta(geo: Geo, g: nat, d: GroupDesc, b: nat)
    requires InRun(b, d.inodeTable, TableBlocks(geo))
    ensures b in MetaBlocks(geo, g, d)
  {
    hide TableBlocks, DescBlocks;
    assert b in Run(d.inodeTable, TableBlocks(geo));
  }
}
