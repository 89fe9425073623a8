/**
 Inode allocation (fs/ext4/ialloc.c): the first clear bit of the inode bitmaps, group by group from a
 preferred one, with per-group counts and a superblock total that is brought up to date every time.
 Inode number i + 1 is bit i % perGroup of group i / perGroup.  Disk I/O and scratch memory succeed.
 */
module Ialloc {
  import opened Runs
  import opened Bitmap
  import opened FreeSpace
  import opened Balloc

  class InodeAllocator {
    /** geo.blocks is the number of inodes. */
    const geo: Geo
    var maps: seq<Bits>
    var counts: seq<nat>
    var superFree: nat
    var desc0: nat

    constructor (geo: Geo, maps: seq<Bits>, counts: seq<nat>, superFree: nat)
      requires WfGeo(geo) && CountsMatch(geo, maps, counts)
      ensures Valid() && this.geo == geo && this.maps == maps && this.superFree == superFree
    {
      this.geo, this.maps, this.counts, this.superFree, desc0 := geo, maps, counts, superFree, counts[0];
    }

    ghost predicate Valid()
      reads this
    {
      WfGeo(geo) && CountsMatch(geo, maps, counts) && desc0 == counts[0]
    }

    /** The free inodes, numbered from 0. */
    ghost function Free(): set<nat>
      requires WfGeo(geo)
      reads this
    {
      FreeSet(geo, maps)
    }

    /** The bit loop in one group. */
    method ScanGroup(g: nat) returns (found: bool, i: nat)
      requires Valid() && g < geo.groups
      ensures found ==>
        i < GroupBlocks(geo, g) <= BITS && !Bit(maps[g], i) && forall k: nat :: k < i ==> Bit(maps[g], k)
      ensures !found ==> forall k: nat :: k < GroupBlocks(geo, g) && k < BITS ==> Bit(maps[g], k)
    {
      hide Bit;
      GroupFits(geo, g);
      var m := maps[g];
      i := 0;
      while i < geo.perGroup && i < BITS && Start(geo, g) + i + 1 <= geo.blocks
        invariant i <= GroupBlocks(geo, g)
        invariant forall k: nat :: k < i ==> Bit(m, k)
      {
        if !Bit(m, i) {
          return true, i;
        }
        i := i + 1;
      }
      found := false;
    }

    method SyncSuper()
      requires WfGeo(geo)
      modifies this`superFree
      ensures CountsMatch(geo, maps, counts) ==> superFree == |Free()|
    {
      if CountsMatch(geo, maps, counts) {
        SumIsFree(geo, maps, counts);
      }
      superFree := AddUp(counts);
    }

    /** ext4_new_inode_in_group: 0 exactly when no inode is free; otherwise the lowest free inode of the group
        asked for, or of the next group that has any. */
    method New(preferred: nat) returns (ino: nat)
      requires Valid()
      modifies this
      ensures Valid()
      ensures ino == 0 <==> old(Free()) == {}
      ensures ino == 0 ==> maps == old(maps) && counts == old(counts)
      ensures ino != 0 ==>
        && ino <= geo.blocks && ino - 1 in old(Free()) && Free() == old(Free()) - {ino - 1} && superFree == |Free()|
      ensures ino != 0 ==> LowestFree(geo, old(maps), preferred, ino - 1)
    {
      hide Bit, FreeSet, GroupBlocks, Start, CountsMatch, WfGeo, LowestFree;
      var first := if preferred < geo.groups then preferred else 0;
      var scanned := 0;
      SomeGroup(geo);
      while scanned < geo.groups
        invariant scanned <= geo.groups && Valid() && maps == old(maps) && counts == old(counts)
        invariant forall g: nat :: g < geo.groups && Visited(first, scanned, geo.groups, g) ==> Full(geo, maps, g)
      {
        var g := first + scanned;
        if g >= geo.groups {
          g := g - geo.groups;
        }
        SameLength(geo, maps, counts);
        var found, i := ScanGroup(g);
        if found {
          LowestFound(geo, maps, preferred, first, scanned, g, i);
          Take(g, i);
          InRange(geo, g, i);
          return Start(geo, g) + i + 1;
        }
        scanned := scanned + 1;
      }
      NothingFree(geo, maps, counts);
      ino := 0;
    }

    method Take(g: nat, i: nat)
      requires Valid() && g < geo.groups && i < GroupBlocks(geo, g) <= BITS && !Bit(maps[g], i)
      modifies this
      ensures Valid() && superFree == |Free()|
      ensures Start(geo, g) + i in old(Free()) && Free() == old(Free()) - {Start(geo, g) + i}
    {
      hide Bit, SetBit, FreeCount, GroupBlocks, Start, FreeSet;
      TakeOne(geo, maps, counts, g, i);
      maps := maps[g := SetBit(maps[g], i)];
      counts := counts[g := if counts[g] > 0 then counts[g] - 1 else 0];
      if g == 0 {
        desc0 := counts[0];
      }
      SyncSuper();
    }

    /** ext4_free_inode.  Like ext4_free_block it checks only that the group exists. */
    method Release(ino: nat) returns (ok: bool)
      requires Valid()
      modifies this
      ensures WfGeo(geo) && |old(maps)| == geo.groups
      ensures Valid() <==> ino == 0 || Countable(geo, old(maps), ino - 1)
      ensures ok <==> 0 < ino && (ino - 1) / geo.perGroup < geo.groups
      ensures Free() == if 0 < ino <= geo.blocks then old(Free()) + {ino - 1} else old(Free())
      ensures 0 < ino <= geo.blocks ==> ok && (ino - 1 !in old(Free()) ==> superFree == |Free()|)
    {
      hide Bit, ClearBit, FreeCount, GroupBlocks, Start, FreeSet, CountsMatch;
      SameLength(geo, maps, counts);
      if ino == 0 {
        return false;
      }
      var g, i := (ino - 1) / geo.perGroup, (ino - 1) % geo.perGroup;
      FreePlace(geo, maps, ino - 1, g, i);
      if g >= geo.groups {
        return false;
      }
      if !Bit(maps[g], i) {
        return true;
      }
      Clear(g, i);
      ok := true;
    }

    method Clear(g: nat, i: nat)
      requires Valid() && g < geo.groups && i < geo.perGroup && g < |maps| && Bit(maps[g], i)
      modifies this
      ensures WfGeo(geo) && (Valid() <==> i < GroupBlocks(geo, g)) && (Valid() ==> superFree == |Free()|)
      ensures maps == old(maps)[g := ClearBit(old(maps)[g], i)]
    {
      hide Bit, ClearBit, FreeCount, GroupBlocks, FreeSet, CountsMatch;
      SameLength(geo, maps, counts);
      CountsAfterClear(geo, maps, counts, g, i);
      maps := maps[g := ClearBit(maps[g], i)];
      counts := counts[g := (counts[g] + 1) % 0x1_0000];
      if g == 0 {
        desc0 := counts[0];
      }
      SyncSuper();
    }
  }

  /** Group g has no clear bit. */
  ghost predicate Full(geo: Geo, maps: seq<Bits>, g: nat) {
    g < |maps| && forall k: nat :: k < GroupBlocks(geo, g) && k < BITS ==> Bit(maps[g], k)
  }

  lemma SomeGroup(geo: Geo)
    requires WfGeo(geo)
    ensures 0 < geo.groups
  {
  }

  /** b is the lowest free inode of its group, and the groups that a search from the preferred one looks at
      before are full. */
  ghost predicate LowestFree(geo: Geo, maps: seq<Bits>, preferred: nat, b: nat)
    requires |maps| == geo.groups
  {
    && 0 < geo.perGroup <= BITS && b / geo.perGroup < geo.groups
    && !Bit(maps[b / geo.perGroup], b % geo.perGroup)
    && (forall k: nat :: k < b % geo.perGroup ==> Bit(maps[b / geo.perGroup], k))
    && forall g: nat :: g < geo.groups && !Full(geo, maps, g) ==>
                          StepsTo(FirstGroup(geo.groups, 0, preferred), geo.groups, b / geo.perGroup) <=
                          StepsTo(FirstGroup(geo.groups, 0, preferred), geo.groups, g)
  }

  lemma LowestFound(geo: Geo, maps: seq<Bits>, preferred: nat, first: nat, scanned: nat, g: nat, i: nat)
    requires WfGeo(geo) && |maps| == geo.groups && first == FirstGroup(geo.groups, 0, preferred)
    requires scanned < geo.groups && g < geo.groups
    requires g == if first + scanned >= geo.groups then first + scanned - geo.groups else first + scanned
    requires forall h: nat :: h < geo.groups && Visited(first, scanned, geo.groups, h) ==> Full(geo, maps, h)
    requires i < GroupBlocks(geo, g) <= BITS && !Bit(maps[g], i) && forall k: nat :: k < i ==> Bit(maps[g], k)
    ensures LowestFree(geo, maps, preferred, Start(geo, g) + i)
  {
    hide Bit, Full;
    LocateAt(geo, g, i);
    forall h: nat | h < geo.groups && !Full(geo, maps, h)
      ensures StepsTo(first, geo.groups, g) <= StepsTo(first, geo.groups, h)
    {
      assert !Visited(first, scanned, geo.groups, h);
    }
  }

  lemma SameLength(geo: Geo, maps: seq<Bits>, counts: seq<nat>)
    requires CountsMatch(geo, maps, counts)
    ensures |maps| == |counts| == geo.groups
  {
  }

  lemma InRange(geo: Geo, g: nat, i: nat)
    requires WfGeo(geo) && g < geo.groups && i < GroupBlocks(geo, g)
    ensures Start(geo, g) + i + 1 <= geo.blocks
  {
    GroupFits(geo, g);
  }

  lemma NothingFree(geo: Geo, maps: seq<Bits>, counts: seq<nat>)
    requires WfGeo(geo) && CountsMatch(geo, maps, counts)
    requires forall g: nat :: g < geo.groups ==> Full(geo, maps, g)
    ensures FreeSet(geo, maps) == {}
  {
    hide Bit;
    forall b: nat | b < geo.blocks
      ensures !IsFree(geo, maps, b)
    {
      Locate(geo, b);
      assert Full(geo, maps, b / geo.perGroup);
    }
  }

  /** Setting one clear bit and counting it. */
  lemma TakeOne(geo: Geo, maps: seq<Bits>, counts: seq<nat>, g: nat, i: nat)
    requires WfGeo(geo) && CountsMatch(geo, maps, counts) && g < geo.groups
    requires i < GroupBlocks(geo, g) <= BITS && !Bit(maps[g], i)
    ensures |counts| == geo.groups && counts[g] > 0
    ensures var maps', counts' := maps[g := SetBit(maps[g], i)], counts[g := counts[g] - 1];
            && CountsMatch(geo, maps', counts')
            && Start(geo, g) + i in FreeSet(geo, maps)
            && FreeSet(geo, maps') == FreeSet(geo, maps) - {Start(geo, g) + i}
  {
    hide Bit, SetBit, FreeCount, GroupBlocks, Start, FreeSet;
    CountPositive(maps[g], i, GroupBlocks(geo, g));
    CountSetBit(maps[g], i, GroupBlocks(geo, g));
    AllocRun(geo, maps, g, i, 1);
    assert SetRun(maps[g], i, 1) == SetBit(maps[g], i) by {
      OneBit(maps[g], i);
    }
    var b := Start(geo, g) + i;
    assert RunSet(b, 1) == {b} by {
      assert InRun(b, b, 1);
    }
  }

  lemma OneBit(m: Bits, i: nat)
    requires i < BITS
    ensures SetRun(m, i, 1) == SetBit(m, i)
  {
    assert SetRun(m, i, 0) == m;
  }
}
