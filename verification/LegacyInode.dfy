/**
 The code that maps blocks through direct and indirect pointers, and the code that frees them again,
 on an inode, its pointer blocks and the block allocator.  Block I/O and scratch memory succeed; the
 allocator may run out of blocks.
 */
module LegacyInode {
  import opened Runs
  import opened Bitmap
  import opened FreeSpace
  import opened Balloc
  import opened LegacyMap

  class PtrDevice {
    var blocks: PtrDisk
  }

  /** What was taken from the free set now belongs to the inode. */
  ghost predicate Progress(d0: PtrDisk, ib0: Pointers, free0: set<nat>, d1: PtrDisk, ib1: Pointers, free1: set<nat>) {
    free1 <= free0 && Owned(d1, ib1) == Owned(d0, ib0) + multiset(free0 - free1)
  }

  /** While the group asked for still has a block to give, nothing was taken from another. */
  ghost predicate Nearby(per: nat, hint: nat, free0: set<nat>, free1: set<nat>)
    requires 0 < per
  {
    (exists a :: a in free1 && a % per >= 1 && a / per == hint) ==> forall b :: b in free0 - free1 ==> b / per == hint
  }

  lemma NearbyTwice(per: nat, hint: nat, free0: set<nat>, free1: set<nat>, free2: set<nat>)
    requires 0 < per && free2 <= free1 <= free0
    requires Nearby(per, hint, free0, free1) && Nearby(per, hint, free1, free2)
    ensures Nearby(per, hint, free0, free2)
  {
    if a :| a in free2 && a % per >= 1 && a / per == hint {
      forall b | b in free0 - free2
        ensures b / per == hint
      {
        assert b in free0 - free1 || b in free1 - free2;
      }
    }
  }

  lemma NearbyAtFirst(per: nat, hint: nat, free: set<nat>)
    requires 0 < per
    ensures Nearby(per, hint, free, free)
  {
  }

  lemma OneNearby(geo: Geo, maps: seq<Bits>, cursors: seq<nat>, goalGroup: nat, hint: nat, blk: nat, len: nat)
    requires WfGeo(geo) && |maps| == |cursors| == geo.groups
    requires NextFit(geo, maps, cursors, goalGroup, 1, hint, blk, len)
    ensures Nearby(geo.perGroup, hint, FreeSet(geo, maps), FreeSet(geo, maps) - {blk})
  {
    hide NextFit, Bit;
    if a :| a in FreeSet(geo, maps) - {blk} && a % geo.perGroup >= 1 && a / geo.perGroup == hint {
      Locate(geo, a);
      assert !Bit(maps[hint], a % geo.perGroup);
      PreferredAnswers(geo, maps, cursors, goalGroup, hint, blk, len);
    }
  }

  ghost predicate Sound(disk: PtrDisk, ib: Pointers, free: set<nat>) {
    Wf(disk, ib) && Apart(multiset(free), Owned(disk, ib))
  }

  lemma OneTaken(d0: PtrDisk, ib0: Pointers, free0: set<nat>, d1: PtrDisk, ib1: Pointers, v: nat)
    requires Sound(d0, ib0, free0) && v in free0 && Took(d0, ib0, d1, ib1, v)
    ensures Sound(d1, ib1, free0 - {v}) && Progress(d0, ib0, free0, d1, ib1, free0 - {v})
  {
    hide Owned, Readable;
    assert free0 - (free0 - {v}) == {v};
    assert v in multiset(free0);
    forall b
      ensures Owned(d1, ib1)[b] <= 1 && !(b in multiset(free0 - {v}) && b in Owned(d1, ib1))
    {
      assert Owned(d1, ib1)[b] == Owned(d0, ib0)[b] + multiset{v}[b];
      assert b in multiset(free0 - {v}) ==> b in multiset(free0);
    }
  }

  lemma ProgressTwice(d0: PtrDisk, ib0: Pointers, free0: set<nat>, d1: PtrDisk, ib1: Pointers, free1: set<nat>,
                      d2: PtrDisk, ib2: Pointers, free2: set<nat>)
    requires Progress(d0, ib0, free0, d1, ib1, free1) && Progress(d1, ib1, free1, d2, ib2, free2)
    ensures Progress(d0, ib0, free0, d2, ib2, free2)
  {
    hide Owned;
    assert free0 - free2 == (free0 - free1) + (free1 - free2);
    assert multiset(free0 - free2) == multiset(free0 - free1) + multiset(free1 - free2);
  }

  lemma FreeShrinks(d0: PtrDisk, ib0: Pointers, free0: set<nat>, d1: PtrDisk, ib1: Pointers, free1: set<nat>)
    requires Progress(d0, ib0, free0, d1, ib1, free1)
    ensures free1 <= free0
  {
  }

  lemma NoProgress(d: PtrDisk, ib: Pointers, free: set<nat>, l: nat)
    ensures forall per: nat, hint: nat :: 0 < per ==> Nearby(per, hint, free, free)
    ensures Progress(d, ib, free, d, ib, free) && SameMap(d, ib, d, ib)
    ensures Remapped(d, ib, d, ib, l, Lookup(d, ib, l))
  {
    assert free - free == {};
  }

  lemma OneBlock(v: nat)
    ensures RunSet(v, 1) == {v}
  {
    assert InRun(v, v, 1);
  }

  lemma NotOwned(d: PtrDisk, ib: Pointers, free: set<nat>, v: nat)
    requires Sound(d, ib, free) && v in free
    ensures v !in Owned(d, ib)
  {
    assert v in multiset(free);
  }

  class Inode {
    /** i_block */
    const ib: array<nat>
    const dev: PtrDevice
    const alloc: Allocator

    constructor (dev: PtrDevice, alloc: Allocator)
      requires alloc.Valid() && dev as object !in alloc.Repr()
      ensures Valid() && fresh(ib) && this.dev == dev && this.alloc == alloc
    {
      this.dev, this.alloc := dev, alloc;
      ib := new nat[15](_ => 0);
      new;
      Empty(dev.blocks, ib[..], alloc.Free());
    }

    function Repr(): set<object> {
      {this, ib, dev} + alloc.Repr()
    }

    ghost predicate Shape()
      reads Repr()
    {
      && ib.Length == 15 && alloc.Valid()
      && ib as object !in alloc.Repr() && dev as object !in alloc.Repr() && ib as object != dev
    }

    ghost predicate Valid()
      reads Repr()
    {
      Shape() && Sound(dev.blocks, ib[..], alloc.Free())
    }

    /** One block from the allocator, not owned so far. */
    method Take(hint: nat) returns (v: nat)
      requires Valid()
      modifies alloc.Repr()
      ensures Shape()
      ensures v == 0 ==> Valid() && alloc.Free() == old(alloc.Free()) && alloc.Avail() == {}
      ensures v != 0 ==>
        v in old(alloc.Free()) && alloc.Free() == old(alloc.Free()) - {v} && v !in Owned(dev.blocks, ib[..])
      ensures Near(hint)
    {
      hide FreeSet, AvailSet, CountsMatch, Owned, Wf, NextFit, Nearby, GroupFull, HasSideRun;
      ghost var free := alloc.Free();
      NearbyAtFirst(alloc.geo.perGroup, hint, free);
      ghost var maps0, cursors, group := alloc.maps, alloc.goalBit[..], alloc.goalGroup;
      var len;
      v, len := alloc.NewBlocksInGroup(1, hint);
      if v != 0 {
        OneNearby(alloc.geo, maps0, cursors, group, hint, v, len);
        OneBlock(v);
        NotOwned(dev.blocks, ib[..], free, v);
      }
    }

    twostate predicate Near(hint: nat)
      requires old(Shape()) && Shape()
      reads Repr()
    {
      Nearby(alloc.geo.perGroup, hint, old(alloc.Free()), alloc.Free())
    }

    method Direct(l: nat, create: bool, hint: nat) returns (ok: bool, out: nat, isNew: bool)
      requires Valid() && l < DIRECT
      modifies ib, dev, alloc.Repr()
      ensures Valid() && Outcome(l, create, hint, ok, out, isNew)
    {
      hide FreeSet, AvailSet, CountsMatch, Nearby, Owned, Readable, SameMap, Progress, Remapped, Sound;
      ghost var d0, b0: Pointers, free0 := dev.blocks, ib[..], alloc.Free();
      NoProgress(d0, b0, free0, l);
      isNew := false;
      if ib[l] == 0 && create {
        var v := Take(hint);
        if v == 0 {
          return false, 0, false;
        }
        DirectDone(d0, b0, free0, l, v);
        ib[l] := v;
        isNew := true;
        assert ib[..] == b0[l := v];
      }
      return true, ib[l], isNew;
    }

    /** What a call for block l may have done. */
    twostate predicate Outcome(l: nat, create: bool, hint: nat, ok: bool, out: nat, isNew: bool)
      requires old(Valid()) && Valid()
      reads Repr()
    {
      && Progress(old(dev.blocks), old(ib[..]), old(alloc.Free()), dev.blocks, ib[..], alloc.Free())
      && Answer(old(dev.blocks), old(ib[..]), dev.blocks, ib[..], l, create, ok, out, isNew)
      && (!ok ==> create && alloc.Avail() == {} && out == 0 && !isNew)
      && (!create || !ok ==> SameMap(old(dev.blocks), old(ib[..]), dev.blocks, ib[..]))
      && (!create ==> alloc.Free() == old(alloc.Free()))
      && Near(hint)
    }

    /** An empty block of pointers for i_block[12]. */
    method EnsureIndirect(hint: nat) returns (ok: bool)
      requires Valid() && ib[IND] == 0
      modifies ib, dev, alloc.Repr()
      ensures Valid() && Advanced(hint) && (ok <==> ib[IND] != 0) && (!ok ==> alloc.Avail() == {})
    {
      hide FreeSet, AvailSet, CountsMatch, Nearby, Owned, Readable, SameMap, Progress, Remapped, Sound;
      ghost var d0, b0: Pointers, free0 := dev.blocks, ib[..], alloc.Free();
      NoProgress(d0, b0, free0, 0);
      var v := Take(hint);
      if v == 0 {
        return false;
      }
      IndirectDone(d0, b0, free0, v);
      ib[IND] := v;
      dev.blocks := dev.blocks[v := NoPtrs()];
      assert ib[..] == b0[IND := v];
      ok := true;
    }

    /** More blocks, the same map. */
    twostate predicate Advanced(hint: nat)
      requires old(Valid()) && Valid()
      reads Repr()
    {
      && Progress(old(dev.blocks), old(ib[..]), old(alloc.Free()), dev.blocks, ib[..], alloc.Free())
      && SameMap(old(dev.blocks), old(ib[..]), dev.blocks, ib[..]) && Near(hint)
    }

    /** A data block for entry i of the block of pointers, 0 when there is none. */
    method FillIndirect(i: nat, hint: nat) returns (v: nat)
      requires Valid() && ib[IND] != 0 && i < PTRS && Ptrs(dev.blocks, ib[IND])[i] == 0
      modifies dev, alloc.Repr()
      ensures Valid() && Filled(DIRECT + i, v, hint)
    {
      hide FreeSet, AvailSet, CountsMatch, Nearby, Owned, Readable, SameMap, Progress, Remapped, Sound;
      ghost var d0, b0: Pointers, free0 := dev.blocks, ib[..], alloc.Free();
      NoProgress(d0, b0, free0, 0);
      v := Take(hint);
      if v != 0 {
        InIndirectDone(d0, b0, free0, i, v);
        dev.blocks := dev.blocks[ib[IND] := dev.blocks[ib[IND]][i := v]];
      }
    }

    /** Block l now has data block v; with v = 0 there was no block left and nothing has changed. */
    twostate predicate Filled(l: nat, v: nat, hint: nat)
      requires old(Valid()) && Valid()
      reads Repr()
    {
      && Progress(old(dev.blocks), old(ib[..]), old(alloc.Free()), dev.blocks, ib[..], alloc.Free())
      && (v == 0 ==> alloc.Avail() == {} && SameMap(old(dev.blocks), old(ib[..]), dev.blocks, ib[..]))
      && (v != 0 ==> Remapped(old(dev.blocks), old(ib[..]), dev.blocks, ib[..], l, v))
      && Near(hint)
    }

    /** Lines 98-155 */
    method Indirect(i: nat, create: bool, hint: nat) returns (ok: bool, out: nat, isNew: bool)
      requires Valid() && i < PTRS
      modifies ib, dev, alloc.Repr()
      ensures Valid() && Outcome(DIRECT + i, create, hint, ok, out, isNew)
    {
      hide FreeSet, AvailSet, CountsMatch, Nearby, Owned, SameMap, Progress, Remapped, Sound, Ptrs;
      ghost var d0, b0: Pointers, free0 := dev.blocks, ib[..], alloc.Free();
      NoProgress(d0, b0, free0, DIRECT + i);
      IndirectFacts(d0, b0, free0, i);
      if ib[IND] == 0 {
        if !create {
          return true, 0, false;
        }
        ok := EnsureIndirect(hint);
        if !ok {
          return false, 0, false;
        }
      }
      ghost var d1, b1: Pointers, free1 := dev.blocks, ib[..], alloc.Free();
      IndirectFacts(d1, b1, free1, i);
      var cur := dev.blocks[ib[IND]][i];
      if cur == 0 && create {
        var v := FillIndirect(i, hint);
        StepsTogether(d0, b0, free0, d1, b1, free1, dev.blocks, ib[..], alloc.Free(), DIRECT + i, v);
        return v != 0, v, v != 0;
      }
      StillThere(d0, b0, d1, b1, DIRECT + i);
      return true, cur, false;
    }

    /** An empty block of pointers for i_block[13]. */
    method EnsureDouble(hint: nat) returns (ok: bool)
      requires Valid() && ib[DBL] == 0
      modifies ib, dev, alloc.Repr()
      ensures Valid() && Advanced(hint) && (ok <==> ib[DBL] != 0) && (!ok ==> alloc.Avail() == {})
    {
      hide FreeSet, AvailSet, CountsMatch, Nearby, Owned, Readable, SameMap, Progress, Remapped, Sound;
      ghost var d0, b0: Pointers, free0 := dev.blocks, ib[..], alloc.Free();
      NoProgress(d0, b0, free0, 0);
      var v := Take(hint);
      if v == 0 {
        return false;
      }
      DoubleDone(d0, b0, free0, v);
      ib[DBL] := v;
      dev.blocks := dev.blocks[v := NoPtrs()];
      assert ib[..] == b0[DBL := v];
      ok := true;
    }

    /** An empty second-level block for entry i. */
    method EnsureSecond(i: nat, hint: nat) returns (c: nat)
      requires Valid() && ib[DBL] != 0 && i < PTRS && Ptrs(dev.blocks, ib[DBL])[i] == 0
      modifies dev, alloc.Repr()
      ensures Valid() && Advanced(hint) && (c == 0 ==> alloc.Avail() == {} && dev.blocks == old(dev.blocks))
      ensures c != 0 ==> Ptrs(dev.blocks, ib[DBL])[i] == c
    {
      hide FreeSet, AvailSet, CountsMatch, Nearby, Owned, SameMap, Progress, Remapped, Sound;
      ghost var d0, b0: Pointers, free0 := dev.blocks, ib[..], alloc.Free();
      NoProgress(d0, b0, free0, 0);
      c := Take(hint);
      if c != 0 {
        SecondDone(d0, b0, free0, i, c);
        dev.blocks := dev.blocks[ib[DBL] := dev.blocks[ib[DBL]][i := c]];
        dev.blocks := dev.blocks[c := NoPtrs()];
      }
    }

    /** A data block for entry j of the second-level block of entry i. */
    method FillSecond(i: nat, j: nat, c: nat, hint: nat) returns (v: nat)
      requires Valid() && i < PTRS && j < PTRS && c != 0 && Ptrs(dev.blocks, ib[DBL])[i] == c
      requires Ptrs(dev.blocks, c)[j] == 0
      modifies dev, alloc.Repr()
      ensures Valid() && Filled(DIRECT + PTRS + i * PTRS + j, v, hint)
    {
      hide FreeSet, AvailSet, CountsMatch, Nearby, Owned, Readable, SameMap, Progress, Remapped, Sound;
      ghost var d0, b0: Pointers, free0 := dev.blocks, ib[..], alloc.Free();
      NoProgress(d0, b0, free0, 0);
      v := Take(hint);
      if v != 0 {
        InSecondDone(d0, b0, free0, i, j, v, c);
        dev.blocks := dev.blocks[c := dev.blocks[c][j := v]];
      }
    }

    /** Lines 170-243: the second-level block of entry i, with create an empty one if there is none. */
    method SecondLevel(i: nat, create: bool, hint: nat) returns (ok: bool, c: nat)
      requires Valid() && i < PTRS
      modifies ib, dev, alloc.Repr()
      ensures Valid() && Advanced(hint)
      ensures c == Ptrs(dev.blocks, ib[DBL])[i]
      ensures !ok ==> create && alloc.Avail() == {}
      ensures ok && create ==> c != 0
      ensures !create ==> alloc.Free() == old(alloc.Free())
    {
      hide FreeSet, AvailSet, CountsMatch, Nearby, Owned, SameMap, Progress, Remapped, Sound, Lookup;
      ghost var d0, b0: Pointers, free0 := dev.blocks, ib[..], alloc.Free();
      NoProgress(d0, b0, free0, 0);
      DoubleFacts(d0, b0, free0, i);
      if ib[DBL] == 0 {
        if !create {
          return true, 0;
        }
        ok := EnsureDouble(hint);
        if !ok {
          DoubleFacts(dev.blocks, ib[..], alloc.Free(), i);
          return false, 0;
        }
      }
      ghost var d1, b1: Pointers, free1 := dev.blocks, ib[..], alloc.Free();
      DoubleFacts(d1, b1, free1, i);
      c := dev.blocks[ib[DBL]][i];
      ok := true;
      if c == 0 && create {
        c := EnsureSecond(i, hint);
        StepsTogether(d0, b0, free0, d1, b1, free1, dev.blocks, ib[..], alloc.Free(), 0, 0);
        ok := c != 0;
      }
    }

    /** Lines 157-272 */
    method Double(i: nat, j: nat, create: bool, hint: nat) returns (ok: bool, out: nat, isNew: bool)
      requires Valid() && i < PTRS && j < PTRS
      modifies ib, dev, alloc.Repr()
      ensures Valid() && Outcome(DIRECT + PTRS + i * PTRS + j, create, hint, ok, out, isNew)
    {
      hide FreeSet, AvailSet, CountsMatch, Nearby, Owned, SameMap, Progress, Remapped, Sound, Ptrs, Lookup;
      ghost var d0, b0: Pointers, free0 := dev.blocks, ib[..], alloc.Free();
      ghost var l := DIRECT + PTRS + i * PTRS + j;
      var c;
      ok, c := SecondLevel(i, create, hint);
      if !ok {
        return false, 0, false;
      }
      ghost var d1, b1: Pointers, free1 := dev.blocks, ib[..], alloc.Free();
      DoubleLookup(d1, b1, free1, i, j);
      DoubleReach(i, j);
      StillThere(d0, b0, d1, b1, l);
      if c == 0 {
        return true, 0, false;
      }
      var cur := dev.blocks[c][j];
      if cur == 0 && create {
        var v := FillSecond(i, j, c, hint);
        StepsTogether(d0, b0, free0, d1, b1, free1, dev.blocks, ib[..], alloc.Free(), l, v);
        return v != 0, v, v != 0;
      }
      return true, cur, false;
    }

    /** ext4_legacy_get_data_block: with create, the mapping of block l and no other changes, and what is
        allocated on the way belongs to the inode, also when the call fails. */
    method GetBlock(l: nat, create: bool, hint: nat) returns (ok: bool, out: nat, isNew: bool)
      requires Valid()
      modifies ib, dev, alloc.Repr()
      ensures Valid() && Outcome(l, create, hint, ok, out, isNew)
    {
      hide FreeSet, AvailSet, CountsMatch, Nearby, Owned, SameMap, Progress, Remapped, Sound, Ptrs, Lookup;
      if l < DIRECT {
        ok, out, isNew := Direct(l, create, hint);
        return;
      }
      var k := l - DIRECT;
      if k < PTRS {
        ok, out, isNew := Indirect(k, create, hint);
        return;
      }
      k := k - PTRS;
      if k >= PTRS * PTRS {
        NoProgress(dev.blocks, ib[..], alloc.Free(), l);
        BeyondReach(dev.blocks, ib[..], l);
        return true, 0, false;
      }
      Quotient(k);
      ok, out, isNew := Double(k / PTRS, k % PTRS, create, hint);
    }

    // ---------- freeing ----------

    /** ext4_free_block on a block that is not free. */
    method FreeOneBlock(b: nat)
      requires Shape() && b < alloc.geo.blocks && b !in alloc.Free()
      modifies alloc
      ensures Shape() && multiset(alloc.Free()) == multiset(old(alloc.Free())) + multiset{b}
    {
      hide FreeSet, CountsMatch;
      var ok := alloc.FreeBlock(b);
    }

    /** The blocks that a list of pointers leads to. */
    method FreeList(s: seq<nat>)
      requires Shape() && FreedApart(multiset(alloc.Free()), Targets(s), alloc.geo.blocks)
      modifies alloc
      ensures Shape() && multiset(alloc.Free()) == multiset(old(alloc.Free())) + Targets(s)
    {
      hide FreeSet, CountsMatch, Targets, FreedApart;
      ghost var base := multiset(alloc.Free());
      NoneYet(s, base);
      var i := 0;
      while i < |s|
        invariant 0 <= i <= |s| && Shape() && multiset(alloc.Free()) == base + Targets(s[..i])
      {
        NextTarget(s, i, base, alloc.geo.blocks);
        if s[i] != 0 {
          FreeOneBlock(s[i]);
        }
        i := i + 1;
      }
      assert s[..i] == s;
    }

    /** A block of pointers and what it leads to. */
    method FreeUnder(b: nat)
      requires Shape() && b != 0 && b in dev.blocks
      requires FreedApart(multiset(alloc.Free()), Under(dev.blocks, b), alloc.geo.blocks)
      modifies alloc
      ensures Shape() && multiset(alloc.Free()) == multiset(old(alloc.Free())) + Under(dev.blocks, b)
    {
      hide FreeSet, CountsMatch, Targets, FreedApart;
      ghost var base, t := multiset(alloc.Free()), Targets(dev.blocks[b]);
      SplitApart(base, multiset{b}, t, alloc.geo.blocks);
      FreeList(dev.blocks[b]);
      LastOne(base, t, b, alloc.geo.blocks);
      FreeOneBlock(b);
      Reorder(base, t, b);
    }

    /** The second-level blocks that a block of pointers leads to. */
    method FreeUnderAll(s: PtrBlock)
      requires Shape() && (forall i :: 0 <= i < PTRS && s[i] != 0 ==> s[i] in dev.blocks)
      requires FreedApart(multiset(alloc.Free()), UnderAll(dev.blocks, s), alloc.geo.blocks)
      modifies alloc
      ensures Shape() && multiset(alloc.Free()) == multiset(old(alloc.Free())) + UnderAll(dev.blocks, s)
    {
      hide FreeSet, CountsMatch, UnderAll, Under, FreedApart;
      ghost var base := multiset(alloc.Free());
      NoneUnderYet(dev.blocks, s, base);
      var i := 0;
      while i < PTRS
        invariant 0 <= i <= PTRS && Shape() && multiset(alloc.Free()) == base + UnderAll(dev.blocks, s[..i])
      {
        NextUnder(dev.blocks, s, i, base, alloc.geo.blocks);
        if s[i] != 0 {
          FreeUnder(s[i]);
        }
        i := i + 1;
      }
      assert s[..i] == s;
    }

    /** ext4_free_legacy_data_blocks: everything the inode owns becomes free, each block once. */
    method FreeAll()
      requires Valid() && FreedApart(multiset(alloc.Free()), Owned(dev.blocks, ib[..]), alloc.geo.blocks)
      modifies ib, alloc
      ensures Valid() && (forall i :: 0 <= i < 15 ==> ib[i] == 0) && Owned(dev.blocks, ib[..]) == multiset{}
      ensures multiset(alloc.Free()) == multiset(old(alloc.Free())) + old(Owned(dev.blocks, ib[..]))
    {
      hide FreeSet, CountsMatch, Targets, Under, UnderAll, FreedApart, Owned;
      ghost var d, b0: Pointers, base := dev.blocks, ib[..], multiset(alloc.Free());
      FourParts(d, b0, base, alloc.geo.blocks);
      ghost var t1, t2, t3 := Targets(b0[..DIRECT]), Under(d, b0[IND]), UnderDouble(d, b0[DBL]);
      FreeList(ib[..DIRECT]);
      if ib[IND] != 0 {
        FreeUnder(ib[IND]);
      }
      assert multiset(alloc.Free()) == base + t1 + t2;
      if ib[DBL] != 0 {
        FreeDouble();
      }
      assert multiset(alloc.Free()) == base + t1 + t2 + t3;
      if ib[TRIPLE] != 0 {
        LastTriple(base + t1 + t2 + t3, b0[TRIPLE], alloc.geo.blocks);
        FreeOneBlock(ib[TRIPLE]);
      }
      assert multiset(alloc.Free()) == base + Owned(d, b0);
      ClearPointers();
      Empty(dev.blocks, ib[..], alloc.Free());
    }

    method ClearPointers()
      requires Shape()
      modifies ib
      ensures Shape() && forall j :: 0 <= j < 15 ==> ib[j] == 0
    {
      var i := 0;
      while i < 15
        invariant 0 <= i <= 15 && Shape() && forall j :: 0 <= j < i ==> ib[j] == 0
      {
        ib[i] := 0;
        i := i + 1;
      }
    }

    method FreeDouble()
      requires Shape() && ib[DBL] != 0 && Readable(dev.blocks, ib[..])
      requires FreedApart(multiset(alloc.Free()), UnderDouble(dev.blocks, ib[DBL]), alloc.geo.blocks)
      modifies alloc
      ensures Shape() && multiset(alloc.Free()) == multiset(old(alloc.Free())) + UnderDouble(dev.blocks, ib[DBL])
    {
      hide FreeSet, CountsMatch, UnderAll, FreedApart;
      var b := ib[DBL];
      ghost var base, t := multiset(alloc.Free()), UnderAll(dev.blocks, dev.blocks[b]);
      SplitApart(base, multiset{b}, t, alloc.geo.blocks);
      FreeUnderAll(dev.blocks[b]);
      LastOne(base, t, b, alloc.geo.blocks);
      FreeOneBlock(b);
      Reorder(base, t, b);
    }
  }

  /** The map afterwards, and how the result fits. */
  ghost predicate Answer(d0: PtrDisk, ib0: Pointers, d1: PtrDisk, ib1: Pointers, l: nat, create: bool, ok: bool,
      out: nat, isNew: bool) {
    ok ==>
      && Remapped(d0, ib0, d1, ib1, l, out)
      && (isNew <==> create && l < REACH && Lookup(d0, ib0, l) == 0)
      && (!isNew ==> out == Lookup(d0, ib0, l))
      && (create && l < REACH ==> out != 0)
  }

  lemma DirectDone(d: PtrDisk, ib: Pointers, free: set<nat>, l: nat, v: nat)
    requires Sound(d, ib, free) && l < DIRECT && ib[l] == 0 && v in free && v != 0
    ensures Sound(d, ib[l := v], free - {v}) && Progress(d, ib, free, d, ib[l := v], free - {v})
    ensures Remapped(d, ib, d, ib[l := v], l, v)
  {
    hide Owned, Took, Progress, Remapped;
    PutDirect(d, ib, l, v);
    OneTaken(d, ib, free, d, ib[l := v], v);
  }

  lemma Empty(d: PtrDisk, ib: Pointers, free: set<nat>)
    requires forall i :: 0 <= i < 15 ==> ib[i] == 0
    ensures Sound(d, ib, free) && Owned(d, ib) == multiset{}
  {
    NoTargets(ib[..DIRECT]);
  }

  lemma IndirectDone(d: PtrDisk, ib: Pointers, free: set<nat>, v: nat)
    requires Sound(d, ib, free) && ib[IND] == 0 && v in free && v != 0 && v !in Owned(d, ib)
    ensures var d1, ib1 := d[v := NoPtrs()], ib[IND := v];
            Sound(d1, ib1, free - {v}) && Progress(d, ib, free, d1, ib1, free - {v}) && SameMap(d, ib, d1, ib1)
  {
    hide Owned, Took, Progress, SameMap;
    PutIndirect(d, ib, v);
    OneTaken(d, ib, free, d[v := NoPtrs()], ib[IND := v], v);
  }

  lemma InIndirectDone(d: PtrDisk, ib: Pointers, free: set<nat>, i: nat, v: nat)
    requires Sound(d, ib, free) && ib[IND] != 0 && i < PTRS && Ptrs(d, ib[IND])[i] == 0 && v in free && v != 0
    ensures ib[IND] in d
    ensures var d1 := d[ib[IND] := d[ib[IND]][i := v]];
            Sound(d1, ib, free - {v}) && Progress(d, ib, free, d1, ib, free - {v}) && Remapped(d, ib, d1, ib,
                DIRECT + i, v)
  {
    hide Owned, Took, Progress, Remapped;
    PutInIndirect(d, ib, i, v);
    OneTaken(d, ib, free, d[ib[IND] := d[ib[IND]][i := v]], ib, v);
  }

  lemma IndirectFacts(d: PtrDisk, ib: Pointers, free: set<nat>, i: nat)
    requires Sound(d, ib, free) && i < PTRS
    ensures ib[IND] == 0 ==> Lookup(d, ib, DIRECT + i) == 0
    ensures ib[IND] != 0 ==> ib[IND] in d && Ptrs(d, ib[IND]) == d[ib[IND]]
    ensures ib[IND] != 0 ==> Lookup(d, ib, DIRECT + i) == d[ib[IND]][i]
  {
  }

  /** A step that keeps the map and one that maps l. */
  lemma StepsTogether(d0: PtrDisk, ib0: Pointers, free0: set<nat>, d1: PtrDisk, ib1: Pointers, free1: set<nat>,
                      d2: PtrDisk, ib2: Pointers, free2: set<nat>, l: nat, v: nat)
    requires Progress(d0, ib0, free0, d1, ib1, free1) && SameMap(d0, ib0, d1, ib1)
    requires Progress(d1, ib1, free1, d2, ib2, free2)
    ensures Progress(d0, ib0, free0, d2, ib2, free2) && Lookup(d1, ib1, l) == Lookup(d0, ib0, l)
    ensures SameMap(d1, ib1, d2, ib2) ==> SameMap(d0, ib0, d2, ib2)
    ensures Remapped(d1, ib1, d2, ib2, l, v) ==> Remapped(d0, ib0, d2, ib2, l, v)
    ensures forall per: nat, hint: nat ::
              0 < per && Nearby(per, hint, free0, free1) && Nearby(per, hint, free1, free2) ==>
              Nearby(per, hint, free0, free2)
  {
    hide Owned, Lookup, Progress, Nearby;
    ProgressTwice(d0, ib0, free0, d1, ib1, free1, d2, ib2, free2);
    FreeShrinks(d0, ib0, free0, d1, ib1, free1);
    FreeShrinks(d1, ib1, free1, d2, ib2, free2);
    forall per: nat, hint: nat | 0 < per && Nearby(per, hint, free0, free1) && Nearby(per, hint, free1, free2)
      ensures Nearby(per, hint, free0, free2)
    {
      NearbyTwice(per, hint, free0, free1, free2);
    }
  }

  lemma StillThere(d0: PtrDisk, ib0: Pointers, d1: PtrDisk, ib1: Pointers, l: nat)
    requires SameMap(d0, ib0, d1, ib1)
    ensures Remapped(d0, ib0, d1, ib1, l, Lookup(d1, ib1, l)) && Lookup(d1, ib1, l) == Lookup(d0, ib0, l)
  {
    hide Lookup;
  }

  lemma DoubleDone(d: PtrDisk, ib: Pointers, free: set<nat>, v: nat)
    requires Sound(d, ib, free) && ib[DBL] == 0 && v in free && v != 0 && v !in Owned(d, ib)
    ensures var d1, ib1 := d[v := NoPtrs()], ib[DBL := v];
            Sound(d1, ib1, free - {v}) && Progress(d, ib, free, d1, ib1, free - {v}) && SameMap(d, ib, d1, ib1)
  {
    hide Owned, Took, Progress, SameMap;
    PutDouble(d, ib, v);
    OneTaken(d, ib, free, d[v := NoPtrs()], ib[DBL := v], v);
  }

  lemma SecondDone(d: PtrDisk, ib: Pointers, free: set<nat>, i: nat, v: nat)
    requires Sound(d, ib, free) && ib[DBL] != 0 && i < PTRS && Ptrs(d, ib[DBL])[i] == 0
    requires v in free && v != 0 && v !in Owned(d, ib)
    ensures ib[DBL] in d && ib[DBL] != v
    ensures var d1 := d[ib[DBL] := d[ib[DBL]][i := v]][v := NoPtrs()];
            Sound(d1, ib, free - {v}) && Progress(d, ib, free, d1, ib, free - {v}) && SameMap(d, ib, d1, ib) &&
            Ptrs(d1, ib[DBL])[i] == v
  {
    hide Owned, Took, Progress, SameMap;
    PointersNot(d, ib, v);
    var d1 := d[ib[DBL] := Ptrs(d, ib[DBL])[i := v]][v := NoPtrs()];
    PutSecond(d, ib, i, v, d1);
    OneTaken(d, ib, free, d1, ib, v);
  }

  lemma InSecondDone(d: PtrDisk, ib: Pointers, free: set<nat>, i: nat, j: nat, v: nat, c: nat)
    requires Sound(d, ib, free) && i < PTRS && j < PTRS && c == Ptrs(d, ib[DBL])[i] && c != 0 && Ptrs(d, c)[j] == 0
    requires v in free && v != 0
    ensures c in d
    ensures var d1 := d[c := d[c][j := v]];
            Sound(d1, ib, free - {v}) && Progress(d, ib, free, d1, ib, free - {v}) &&
            Remapped(d, ib, d1, ib, DIRECT + PTRS + i * PTRS + j, v)
  {
    hide Owned, Took, Progress, Remapped;
    PutInSecond(d, ib, i, j, v, c);
    OneTaken(d, ib, free, d[c := d[c][j := v]], ib, v);
  }

  lemma DoubleFacts(d: PtrDisk, ib: Pointers, free: set<nat>, i: nat)
    requires Sound(d, ib, free) && i < PTRS
    ensures ib[DBL] == 0 ==> Ptrs(d, ib[DBL])[i] == 0
    ensures ib[DBL] != 0 ==> ib[DBL] in d && Ptrs(d, ib[DBL]) == d[ib[DBL]]
    ensures Ptrs(d, ib[DBL])[i] != 0 ==> Ptrs(d, ib[DBL])[i] in d
  {
  }

  lemma DoubleLookup(d: PtrDisk, ib: Pointers, free: set<nat>, i: nat, j: nat)
    requires Sound(d, ib, free) && i < PTRS && j < PTRS
    ensures var c := Ptrs(d, ib[DBL])[i];
            && Lookup(d, ib, DIRECT + PTRS + i * PTRS + j) == Ptrs(d, c)[j]
            && (c == 0 ==> Ptrs(d, c)[j] == 0) && (c != 0 ==> c in d && Ptrs(d, c) == d[c])
  {
    hide Owned, Once, Apart;
    DoubleReach(i, j);
    var k := i * PTRS + j;
    assert k / PTRS == i && k % PTRS == j;
  }

  lemma DoubleReach(i: nat, j: nat)
    requires i < PTRS && j < PTRS
    ensures DIRECT + PTRS + i * PTRS + j < REACH
  {
  }

  lemma Quotient(k: nat)
    requires k < PTRS * PTRS
    ensures k / PTRS < PTRS && k % PTRS < PTRS && k / PTRS * PTRS + k % PTRS == k
  {
  }

  lemma BeyondReach(d: PtrDisk, ib: Pointers, l: nat)
    ensures l >= REACH ==> Lookup(d, ib, l) == 0
  {
  }

  /** t can be freed one by one when base is free: nothing twice, nothing already free, all in range. */
  ghost predicate FreedApart(base: multiset<nat>, t: multiset<nat>, blocks: nat) {
    Once(base + t) && forall b :: b in t ==> b < blocks
  }

  lemma SplitApart(base: multiset<nat>, s: multiset<nat>, t: multiset<nat>, blocks: nat)
    requires FreedApart(base, s + t, blocks)
    ensures FreedApart(base, s, blocks) && FreedApart(base, t, blocks)
    ensures FreedApart(base + t, s, blocks) && FreedApart(base + s, t, blocks)
  {
    forall b
      ensures (base + s)[b] <= 1 && (base + t)[b] <= 1 && (base + t + s)[b] <= 1 && (base + s + t)[b] <= 1
      ensures b in s || b in t ==> b < blocks
    {
      assert (base + (s + t))[b] == base[b] + s[b] + t[b];
      assert b in s || b in t ==> b in s + t;
    }
  }

  lemma LastOne(base: multiset<nat>, t: multiset<nat>, b: nat, blocks: nat)
    requires FreedApart(base, multiset{b} + t, blocks)
    ensures b !in base + t && b < blocks
  {
    assert (base + (multiset{b} + t))[b] == base[b] + 1 + t[b];
    assert b in multiset{b} + t;
  }

  lemma LastTriple(base: multiset<nat>, b: nat, blocks: nat)
    requires FreedApart(base, One(b), blocks) && b != 0
    ensures b !in base && b < blocks
  {
    assert (base + multiset{b})[b] == base[b] + 1;
    assert b in multiset{b};
  }

  lemma Reorder(base: multiset<nat>, t: multiset<nat>, b: nat)
    ensures base + t + multiset{b} == base + (multiset{b} + t)
  {
  }

  lemma NoneYet(s: seq<nat>, base: multiset<nat>)
    ensures base + Targets(s[..0]) == base
  {
  }

  lemma NextTarget(s: seq<nat>, i: nat, base: multiset<nat>, blocks: nat)
    requires i < |s| && FreedApart(base, Targets(s), blocks)
    ensures base + Targets(s[..i + 1]) == base + Targets(s[..i]) + One(s[i])
    ensures s[i] != 0 ==> s[i] !in base + Targets(s[..i]) && s[i] < blocks
  {
    assert s[..i + 1][..i] == s[..i];
    TargetsAt(s, i);
    var x := s[i];
    if x != 0 {
      assert (base + Targets(s))[x] == base[x] + Targets(s)[x];
      assert (Targets(s[..i]) + multiset{x})[x] == Targets(s[..i])[x] + 1;
    }
  }

  lemma StillIn(a: multiset<nat>, t: multiset<nat>, z: multiset<nat>)
    requires a <= t
    ensures a <= t + z
  {
  }

  lemma {:induction false} TargetsAt(s: seq<nat>, i: nat)
    requires i < |s|
    ensures Targets(s[..i]) + One(s[i]) <= Targets(s)
  {
    hide One;
    var n := |s| - 1;
    if i < n {
      TargetsAt(s[..n], i);
      assert s[..n][..i] == s[..i];
      StillIn(Targets(s[..i]) + One(s[i]), Targets(s[..n]), One(s[n]));
    }
  }

  lemma NoneUnderYet(d: PtrDisk, s: seq<nat>, base: multiset<nat>)
    ensures base + UnderAll(d, s[..0]) == base
  {
  }

  lemma NextUnder(d: PtrDisk, s: seq<nat>, i: nat, base: multiset<nat>, blocks: nat)
    requires i < |s| && FreedApart(base, UnderAll(d, s), blocks)
    ensures base + UnderAll(d, s[..i + 1]) == base + UnderAll(d, s[..i]) + Under(d, s[i])
    ensures FreedApart(base + UnderAll(d, s[..i]), Under(d, s[i]), blocks)
    ensures s[i] == 0 ==> Under(d, s[i]) == multiset{}
  {
    hide Targets, Ptrs;
    assert s[..i + 1][..i] == s[..i];
    UnderAllAt(d, s, i);
    var t, u := UnderAll(d, s[..i]), Under(d, s[i]);
    forall b
      ensures (base + t + u)[b] <= 1 && (b in u ==> b < blocks)
    {
      assert (base + UnderAll(d, s))[b] == base[b] + UnderAll(d, s)[b];
      assert (t + u)[b] <= UnderAll(d, s)[b];
    }
  }

  lemma {:induction false} UnderAllAt(d: PtrDisk, s: seq<nat>, i: nat)
    requires i < |s|
    ensures UnderAll(d, s[..i]) + Under(d, s[i]) <= UnderAll(d, s)
  {
    hide Under;
    var n := |s| - 1;
    if i < n {
      UnderAllAt(d, s[..n], i);
      assert s[..n][..i] == s[..i];
      StillIn(UnderAll(d, s[..i]) + Under(d, s[i]), UnderAll(d, s[..n]), Under(d, s[n]));
    }
  }

  /** The four parts of what an inode owns, freed one after the other. */
  lemma FourParts(d: PtrDisk, ib: Pointers, base: multiset<nat>, blocks: nat)
    requires FreedApart(base, Owned(d, ib), blocks)
    ensures var t1, t2, t3, t4 := Targets(ib[..DIRECT]), Under(d, ib[IND]), UnderDouble(d, ib[DBL]), One(ib[TRIPLE]);
            && FreedApart(base, t1, blocks) && FreedApart(base + t1, t2, blocks)
            && FreedApart(base + t1 + t2, t3, blocks) && FreedApart(base + t1 + t2 + t3, t4, blocks)
            && base + Owned(d, ib) == base + t1 + t2 + t3 + t4
            && (ib[IND] == 0 ==> t2 == multiset{}) && (ib[DBL] == 0 ==> t3 == multiset{})
            && (ib[TRIPLE] == 0 ==> t4 == multiset{}) && (ib[TRIPLE] != 0 ==> t4 == multiset{ib[TRIPLE]})
  {
    hide Targets, UnderAll, FreedApart;
    var t1, t2, t3, t4 := Targets(ib[..DIRECT]), Under(d, ib[IND]), UnderDouble(d, ib[DBL]), One(ib[TRIPLE]);
    assert Owned(d, ib) == t1 + (t2 + (t3 + t4));
    SplitApart(base, t1, t2 + (t3 + t4), blocks);
    SplitApart(base + t1, t2, t3 + t4, blocks);
    SplitApart(base + t1 + t2, t3, t4, blocks);
  }
}
