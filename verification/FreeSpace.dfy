/**
 The free blocks of a volume cut into groups, as the set of clear bits of the per-group bitmaps,
 and the counts kept beside them.
 */
module FreeSpace {
  import opened Runs
  import opened Bitmap

  /** The geometry both the allocator and ext4_free_block work with. */
  datatype Geo = Geo(blocks: nat, perGroup: nat, groups: nat)

  ghost predicate WfGeo(geo: Geo) {
    && 0 < geo.perGroup <= BITS
    && 0 < geo.groups
    && (geo.groups - 1) * geo.perGroup < geo.blocks <= geo.groups * geo.perGroup
  }

  function Start(geo: Geo, g: nat): nat {
    g * geo.perGroup
  }

  function GroupBlocks(geo: Geo, g: nat): int {
    if Start(geo, g) + geo.perGroup > geo.blocks then geo.blocks - Start(geo, g) else geo.perGroup
  }

  lemma MulMono(a: nat, b: nat, p: nat)
    ensures a <= b ==> a * p <= b * p
  {
  }

  lemma GroupFits(geo: Geo, g: nat)
    requires WfGeo(geo) && g < geo.groups
    ensures 0 < GroupBlocks(geo, g) <= geo.perGroup && Start(geo, g) + GroupBlocks(geo, g) <= geo.blocks
  {
    MulMono(g, geo.groups - 1, geo.perGroup);
  }

  lemma Locate(geo: Geo, b: nat)
    requires WfGeo(geo) && b < geo.blocks
    ensures b / geo.perGroup < geo.groups
    ensures b % geo.perGroup < GroupBlocks(geo, b / geo.perGroup)
    ensures b == Start(geo, b / geo.perGroup) + b % geo.perGroup
  {
    MulMono(geo.groups, b / geo.perGroup, geo.perGroup);
  }

  lemma LocateAt(geo: Geo, g: nat, i: nat)
    requires WfGeo(geo) && g < geo.groups && i < GroupBlocks(geo, g)
    ensures Start(geo, g) + i < geo.blocks
    ensures (Start(geo, g) + i) / geo.perGroup == g && (Start(geo, g) + i) % geo.perGroup == i
  {
    GroupFits(geo, g);
    DivModUnique(Start(geo, g) + i, geo.perGroup, g, i);
  }

  lemma DivModUnique(b: nat, p: nat, g: nat, i: nat)
    requires 0 < p && i < p && b == g * p + i
    ensures b / p == g && b % p == i
  {
    var q, r := b / p, b % p;
    assert q * p + r == g * p + i;
    MulMono(q + 1, g, p);
    MulMono(g + 1, q, p);
  }

  predicate IsFree(geo: Geo, maps: seq<Bits>, b: nat)
    requires 0 < geo.perGroup <= BITS
  {
    b < geo.blocks && b / geo.perGroup < |maps| && !Bit(maps[b / geo.perGroup], b % geo.perGroup)
  }

  function FreeSet(geo: Geo, maps: seq<Bits>): set<nat>
    requires 0 < geo.perGroup <= BITS
  {
    set b: nat | b < geo.blocks && IsFree(geo, maps, b)
  }

  lemma FreeAt(geo: Geo, maps: seq<Bits>, g: nat, i: nat)
    requires WfGeo(geo) && |maps| == geo.groups && g < geo.groups && i < GroupBlocks(geo, g)
    ensures i < BITS
    ensures Start(geo, g) + i in FreeSet(geo, maps) <==> !Bit(maps[g], i)
  {
    GroupFits(geo, g);
    LocateAt(geo, g, i);
  }

  /** Setting a clear run takes exactly that run out of the free set. */
  lemma AllocRun(geo: Geo, maps: seq<Bits>, g: nat, i: nat, n: nat)
    requires WfGeo(geo) && |maps| == geo.groups && g < geo.groups
    requires i + n <= GroupBlocks(geo, g) <= BITS && ClearRun(maps[g], i, n)
    ensures RunSet(Start(geo, g) + i, n) <= FreeSet(geo, maps)
    ensures FreeSet(geo, maps[g := SetRun(maps[g], i, n)]) == FreeSet(geo, maps) - RunSet(Start(geo, g) + i, n)
  {
    hide Bit, SetRun, GroupBlocks, Start;
    var after := maps[g := SetRun(maps[g], i, n)];
    var s := Start(geo, g) + i;
    forall b: nat | InRun(b, s, n)
      ensures b in FreeSet(geo, maps)
    {
      FreeAt(geo, maps, g, b - Start(geo, g));
    }
    forall b: nat
      ensures b in FreeSet(geo, after) <==> b in FreeSet(geo, maps) && !InRun(b, s, n)
    {
      if b < geo.blocks {
        Locate(geo, b);
        var h, k := b / geo.perGroup, b % geo.perGroup;
        if h == g {
          BitAfterSetRun(maps[g], i, n, k);
        } else if InRun(b, s, n) {
          LocateAt(geo, g, b - Start(geo, g));
          assert false;
        }
      }
    }
  }

  /** Clearing one bit puts exactly its block into the free set. */
  lemma FreeOne(geo: Geo, maps: seq<Bits>, g: nat, i: nat)
    requires WfGeo(geo) && |maps| == geo.groups && g < geo.groups && i < GroupBlocks(geo, g) <= BITS
    ensures FreeSet(geo, maps[g := ClearBit(maps[g], i)]) == FreeSet(geo, maps) + {Start(geo, g) + i}
  {
    hide Bit, ClearBit, GroupBlocks, Start;
    LocateAt(geo, g, i);
    var b := Start(geo, g) + i;
    var after := maps[g := ClearBit(maps[g], i)];
    forall c: nat
      ensures c in FreeSet(geo, after) <==> c in FreeSet(geo, maps) || c == b
    {
      if c < geo.blocks {
        Locate(geo, c);
        if c / geo.perGroup == g {
          BitAfterClear(maps[g], i, c % geo.perGroup);
        }
      }
    }
  }

  // ---------- counts ----------

  function Sum(counts: seq<nat>): nat {
    if counts == [] then 0 else Sum(counts[..|counts| - 1]) + counts[|counts| - 1]
  }

  /** The loops over all groups in ext4_sync_super_free_counts. */
  method AddUp(counts: seq<nat>) returns (total: nat)
    ensures total == Sum(counts)
  {
    total := 0;
    for g := 0 to |counts|
      invariant total == Sum(counts[..g])
    {
      assert counts[..g + 1][..g] == counts[..g];
      total := total + counts[g];
    }
    assert counts[..|counts|] == counts;
  }

  /** Every group's count is the number of clear bits among the blocks it has. */
  ghost predicate CountsMatch(geo: Geo, maps: seq<Bits>, counts: seq<nat>)
  {
    && |maps| == |counts| == geo.groups
    && forall g :: 0 <= g < geo.groups ==> 0 <= GroupBlocks(geo, g) <= BITS && counts[g] == FreeCount(maps[g],
        GroupBlocks(geo, g))
  }

  /** The free blocks below n. */
  function FreeBelow(geo: Geo, maps: seq<Bits>, n: nat): set<nat>
    requires 0 < geo.perGroup <= BITS
  {
    set b: nat | b < n && IsFree(geo, maps, b)
  }

  lemma {:induction false} CountGroup(geo: Geo, maps: seq<Bits>, g: nat, k: nat)
    requires WfGeo(geo) && |maps| == geo.groups && g < geo.groups && k <= GroupBlocks(geo, g) <= BITS
    ensures |FreeBelow(geo, maps, Start(geo, g) + k)| == |FreeBelow(geo, maps, Start(geo, g))| + FreeCount(maps[g], k)
  {
    hide Bit, GroupBlocks, Start;
    if k > 0 {
      CountGroup(geo, maps, g, k - 1);
      var b := Start(geo, g) + k - 1;
      FreeAt(geo, maps, g, k - 1);
      var lo, up := FreeBelow(geo, maps, b), FreeBelow(geo, maps, b + 1);
      if IsFree(geo, maps, b) {
        assert up == lo + {b};
      } else {
        assert up == lo;
      }
    }
  }

  lemma NextStart(geo: Geo, g: nat)
    requires WfGeo(geo) && g < geo.groups
    ensures Start(geo, g) + GroupBlocks(geo, g) == if g + 1 == geo.groups then geo.blocks else Start(geo, g + 1)
  {
    GroupFits(geo, g);
    MulMono(g + 2, geo.groups, geo.perGroup);
    assert (g + 1) * geo.perGroup == g * geo.perGroup + geo.perGroup;
    if g + 1 < geo.groups {
      GroupFits(geo, g + 1);
    }
  }

  lemma {:induction false} CountGroups(geo: Geo, maps: seq<Bits>, counts: seq<nat>, g: nat)
    requires WfGeo(geo) && CountsMatch(geo, maps, counts) && g <= geo.groups
    ensures |FreeBelow(geo, maps, if g == geo.groups then geo.blocks else Start(geo, g))| == Sum(counts[..g])
  {
    if g > 0 {
      CountGroups(geo, maps, counts, g - 1);
      assert counts[..g][..g - 1] == counts[..g - 1];
      NextStart(geo, g - 1);
      hide Start, GroupBlocks, FreeBelow, WfGeo;
      CountGroup(geo, maps, g - 1, GroupBlocks(geo, g - 1));
    } else {
      assert FreeBelow(geo, maps, 0) == {};
    }
  }

  /** The counts add up to the number of free blocks. */
  lemma SumIsFree(geo: Geo, maps: seq<Bits>, counts: seq<nat>)
    requires WfGeo(geo) && CountsMatch(geo, maps, counts)
    ensures Sum(counts) == |FreeSet(geo, maps)|
  {
    CountGroups(geo, maps, counts, geo.groups);
    assert counts[..geo.groups] == counts;
    assert FreeBelow(geo, maps, geo.blocks) == FreeSet(geo, maps);
  }
}
