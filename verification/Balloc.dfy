/**
 The block allocator (fs/ext4/balloc.c): a next-fit run allocator over per-group bitmaps with a
 one-group bitmap cache, per-group free counts on disk and a batched superblock total.
 Block and bitmap I/O and scratch memory are taken to succeed.
 */
module Balloc {
  import opened Runs
  import opened Bitmap
  import opened FreeSpace

  /** (uint32_t)-1: no group is preferred. */
  const NO_GROUP: nat := 0xffff_ffff

  /** No clear run of n bits lies within [from, to). */
  ghost predicate NoRun(m: Bits, from: nat, to: nat, n: nat)
    requires to <= BITS
  {
    forall s: nat :: from <= s && s + n <= to ==> !ClearRun(m, s, n)
  }

  lemma NoRunMono(m: Bits, from: nat, to: nat, n: nat, n': nat)
    requires to <= BITS && NoRun(m, from, to, n) && n <= n'
    ensures NoRun(m, from, to, n')
  {
    forall s: nat | from <= s && s + n' <= to
      ensures !ClearRun(m, s, n')
    {
      assert !ClearRun(m, s, n);
    }
  }

  /** Some clear run of n bits lies wholly on one side of the cursor, bit 0 excepted. */
  ghost predicate SideRun(m: Bits, cursor: nat, end: nat, n: nat)
    requires cursor <= end <= BITS
  {
    exists s: nat :: ((cursor <= s && s + n <= end) || (1 <= s && s + n <= cursor)) && ClearRun(m, s, n)
  }

  /** The scan's answer in [from, to): the longest clear run there, cut off at goal, and the first of its
      length. */
  ghost predicate Picked(m: Bits, from: nat, to: nat, goal: nat, i: nat, n: nat) {
    && from <= i && 1 <= n <= goal && i + n <= to <= BITS && ClearRun(m, i, n)
    && (n < goal ==> NoRun(m, from, to, n + 1)) && NoRun(m, from, i + n - 1, n)
  }

  /** There is one answer only. */
  lemma PickedOnce(m: Bits, from: nat, to: nat, goal: nat, i: nat, n: nat, i': nat, n': nat)
    requires Picked(m, from, to, goal, i, n) && Picked(m, from, to, goal, i', n')
    ensures i == i' && n == n'
  {
    hide Bit;
    if n < n' {
      ShorterRun(m, i', n + 1, n');
    } else if n' < n {
      ShorterRun(m, i, n' + 1, n);
    }
  }

  lemma ShorterRun(m: Bits, i: nat, n: nat, longer: nat)
    requires i + longer <= BITS && n <= longer && ClearRun(m, i, longer)
    ensures ClearRun(m, i, n)
  {
    hide Bit;
  }

  lemma FoundBehind(m: Bits, cursor: nat, end: nat, goal: nat, want: nat, i: nat, n: nat)
    requires 1 <= cursor <= end <= BITS && Picked(m, cursor, end, goal, i, n) && want <= n
    ensures PickedNext(m, cursor, end, goal, want, i, n)
  {
    hide Bit;
    ShorterRun(m, i, want, n);
  }

  /** Next fit in one group: at or behind the cursor when want clear blocks in a row lie there, before it
      otherwise. */
  ghost predicate PickedNext(m: Bits, cursor: nat, end: nat, goal: nat, want: nat, i: nat, n: nat) {
    && 1 <= cursor <= end <= BITS
    && if NoRun(m, cursor, end, want) then Picked(m, 1, cursor, goal, i, n) else Picked(m, cursor, end, goal, i, n)
  }

  /** Where the scan of group g starts. */
  function CursorOf(geo: Geo, cursors: seq<nat>, g: nat): (c: nat)
    requires g < |cursors|
    ensures 1 <= c && (1 < GroupBlocks(geo, g) ==> c < GroupBlocks(geo, g))
  {
    if 1 <= cursors[g] < GroupBlocks(geo, g) then cursors[g] else 1
  }

  ghost predicate HasSideRun(geo: Geo, maps: seq<Bits>, cursors: seq<nat>, g: nat, n: nat)
    requires g < |maps| && g < |cursors|
  {
    1 < GroupBlocks(geo, g) <= BITS && SideRun(maps[g], CursorOf(geo, cursors, g), GroupBlocks(geo, g), n)
  }

  /** Group g has no clear bit, bit 0 excepted. */
  ghost predicate GroupFull(geo: Geo, maps: seq<Bits>, g: nat)
    requires g < |maps|
  {
    forall k: nat :: 1 <= k < GroupBlocks(geo, g) && k < BITS ==> Bit(maps[g], k)
  }

  /** The blocks the allocator can hand out: the free ones, bit 0 of every group excepted. */
  function AvailSet(geo: Geo, maps: seq<Bits>): set<nat>
    requires 0 < geo.perGroup <= BITS
  {
    set b: nat | b < geo.blocks && IsFree(geo, maps, b) && b % geo.perGroup >= 1
  }

  lemma FullMeansNone(geo: Geo, maps: seq<Bits>)
    requires WfGeo(geo) && |maps| == geo.groups
    ensures (forall g: nat :: g < geo.groups ==> GroupFull(geo, maps, g)) <==> AvailSet(geo, maps) == {}
  {
    hide Bit;
    if forall g: nat :: g < geo.groups ==> GroupFull(geo, maps, g) {
      forall b: nat | b < geo.blocks && b % geo.perGroup >= 1
        ensures !IsFree(geo, maps, b)
      {
        Locate(geo, b);
        assert GroupFull(geo, maps, b / geo.perGroup);
      }
    }
    if AvailSet(geo, maps) == {} {
      forall g: nat, k: nat | g < geo.groups && 1 <= k < GroupBlocks(geo, g) && k < BITS
        ensures Bit(maps[g], k)
      {
        LocateAt(geo, g, k);
        assert Start(geo, g) + k !in AvailSet(geo, maps);
      }
    }
  }

  method TestBit(buf: array<bv8>, k: nat) returns (used: bool)
    requires buf.Length == BLOCK_SIZE && k < BITS
    ensures used == Bit(buf[..], k)
  {
    used := buf[k / 8] & Mask(k % 8) != 0;
  }

  method RaiseBit(buf: array<bv8>, k: nat)
    requires buf.Length == BLOCK_SIZE && k < BITS
    modifies buf
    ensures buf[..] == SetBit(old(buf[..]), k)
  {
    buf[k / 8] := buf[k / 8] | Mask(k % 8);
  }

  method DropBit(buf: array<bv8>, k: nat)
    requires buf.Length == BLOCK_SIZE && k < BITS
    modifies buf
    ensures buf[..] == ClearBit(old(buf[..]), k)
  {
    buf[k / 8] := buf[k / 8] & !Mask(k % 8);
  }

  /** ext4_bmap_scan_free_run: the longest clear run within [begin, end), cut off at goal, when it is
      longer than the run already found. */
  method ScanFreeRun(buf: array<bv8>, begin: nat, end: nat, goal: nat, start0: nat, len0: nat, mustFull: bool)
    returns (found: bool, start: nat, len: nat)
    requires buf.Length == BLOCK_SIZE && len0 < goal
    ensures len0 <= len <= goal
    ensures end > BITS || begin >= end ==> !found && len == len0
    ensures len == len0 ==> start == start0
    ensures len > len0 ==> begin <= start && start + len <= end <= BITS && ClearRun(buf[..], start, len)
    ensures end <= BITS && len < goal ==> NoRun(buf[..], begin, end, len + 1)
    ensures len > len0 ==> Picked(buf[..], begin, end, goal, start, len)
    ensures begin < end <= BITS ==> found == if mustFull then len == goal else len > 0
  {
    start, len := start0, len0;
    if end > BITS || begin >= end {
      return false, start, len;
    }
    hide Bit, NoRun, ClearRun, Picked, ScanAt;
    ghost var m: Bits := buf[..];
    var cur, run, i := 0, 0, begin;
    ScanStart(m, begin, run, start0, len0);
    while i < end
      invariant begin <= i <= end && ScanAt(m, begin, i, cur, run, start0, len0, start, len) && len < goal
    {
      cur, run, start, len := ScanOne(buf, begin, i, cur, run, start0, len0, start, len);
      if len >= goal {
        break;
      }
      i := i + 1;
    }
    ScanEnd(m, begin, if len < goal then i else i + 1, cur, run, start0, len0, start, len, end, goal);
    found := if mustFull then len >= goal else len > 0;
  }

  /** One round of the scan. */
  method ScanOne(buf: array<bv8>, begin: nat, i: nat, cur0: nat, run0: nat, ghost s0: nat, ghost l0: nat, start0: nat,
                 len0: nat) returns (cur: nat, run: nat, start: nat, len: nat)
    requires buf.Length == BLOCK_SIZE && i < BITS && ScanAt(buf[..], begin, i, cur0, run0, s0, l0, start0, len0)
    ensures ScanAt(buf[..], begin, i + 1, cur, run, s0, l0, start, len) && len0 <= len <= len0 + 1
  {
    hide Bit, NoRun, ClearRun;
    ghost var m: Bits := buf[..];
    cur, run, start, len := cur0, run0, start0, len0;
    var used := TestBit(buf, i);
    ExtendRun(m, i - cur, cur);
    if !used {
      run := if cur == 0 then i else run;
      cur := cur + 1;
    } else {
      cur := 0;
    }
    if cur > len {
      start, len := run, cur;
    }
    ScanStep(m, begin, i, cur, len0, len);
  }

  /** Where the scan stands before bit i: the clear run that ends there, and the longest one so far. */
  ghost predicate ScanAt(m: Bits, begin: nat, i: nat, cur: nat, run: nat, start0: nat, len0: nat, start: nat,
                         len: nat) {
    && begin <= i <= BITS && cur <= i - begin && cur <= len && (cur > 0 ==> run == i - cur)
    && ClearRun(m, i - cur, cur) && (cur < i - begin ==> Bit(m, i - cur - 1))
    && len0 <= len && (len == len0 ==> start == start0)
    && (len > len0 ==> begin <= start && start + len <= i && ClearRun(m, start, len) &&
                       NoRun(m, begin, start + len - 1, len))
    && NoRun(m, begin, i, len + 1)
  }

  lemma ScanStart(m: Bits, begin: nat, run: nat, start0: nat, len0: nat)
    requires begin <= BITS
    ensures ScanAt(m, begin, begin, 0, run, start0, len0, start0, len0)
  {
  }

  lemma ScanEnd(m: Bits, begin: nat, i: nat, cur: nat, run: nat, start0: nat, len0: nat, start: nat, len: nat, end: nat,
                goal: nat)
    requires ScanAt(m, begin, i, cur, run, start0, len0, start, len) && i <= end <= BITS
    requires len <= goal && (len < goal ==> i == end)
    ensures len0 <= len && (len == len0 ==> start == start0) && (len < goal ==> NoRun(m, begin, end, len + 1))
    ensures len > len0 ==>
              begin <= start && start + len <= end && ClearRun(m, start, len) &&
              Picked(m, begin, end, goal, start, len)
  {
    hide Bit;
  }

  lemma ExtendRun(m: Bits, s: nat, n: nat)
    requires s + n < BITS && ClearRun(m, s, n)
    ensures ClearRun(m, s, n + 1) <==> !Bit(m, s + n)
    ensures ClearRun(m, s + n + 1, 0)
  {
    hide Bit;
  }

  /** The maximal clear run ending at i + 1 has cur bits, so no longer one appears there. */
  lemma ScanStep(m: Bits, begin: nat, i: nat, cur: nat, len1: nat, len: nat)
    requires begin <= i < BITS && cur <= i + 1 - begin && len1 <= len && cur <= len
    requires NoRun(m, begin, i, len1 + 1)
    requires cur < i + 1 - begin ==> Bit(m, i - cur)
    ensures NoRun(m, begin, i + 1, len + 1)
  {
    NoRunMono(m, begin, i, len1 + 1, len + 1);
    var n := len + 1;
    forall s: nat | begin <= s && s + n <= i + 1
      ensures !ClearRun(m, s, n)
    {
      if s + n == i + 1 {
        assert s <= i - cur < s + n;
      }
    }
  }

  method MarkBlocks(buf: array<bv8>, start: nat, len: nat)
    requires buf.Length == BLOCK_SIZE && start + len <= BITS
    modifies buf
    ensures buf[..] == SetRun(old(buf[..]), start, len)
  {
    hide SetBit;
    ghost var m: Bits := buf[..];
    for j := 0 to len
      invariant buf[..] == SetRun(m, start, j)
    {
      RaiseBit(buf, start + j);
    }
  }

  /** struct ext4_sb_info as far as block allocation goes, with the on-disk bitmaps, per-group counts
      and superblock total it keeps up to date. */
  class Allocator {
    const geo: Geo
    // on disk
    var maps: seq<Bits>
    var counts: seq<nat>
    var superFree: nat
    // in memory
    var desc0: nat
    var goalGroup: nat
    const goalBit: array<nat>
    var cacheGroup: nat
    var cacheValid: bool
    var cacheDirty: bool
    const cacheBuf: array<bv8>
    var pending: nat
    var batch: nat

    /** What mounting makes of the bitmaps and counts on disk: cursors at bit 1, nothing cached. */
    constructor Mount(geo: Geo, maps: seq<Bits>, counts: seq<nat>, superFree: nat, batch: nat)
      requires WfGeo(geo) && CountsMatch(geo, maps, counts) && 1 <= batch
      ensures Valid() && Free() == FreeSet(geo, maps)
      ensures this.geo == geo && this.maps == maps && pending == 0 && this.superFree == superFree
      ensures goalGroup == 0 && forall g :: 0 <= g < goalBit.Length ==> goalBit[g] == 1
      ensures fresh(goalBit) && fresh(cacheBuf)
    {
      this.geo, this.maps, this.counts, this.superFree, this.batch := geo, maps, counts, superFree, batch;
      desc0, goalGroup, pending := counts[0], 0, 0;
      goalBit := new nat[geo.groups](_ => 1);
      cacheGroup, cacheValid, cacheDirty := 0, false, false;
      cacheBuf := new bv8[BLOCK_SIZE](_ => 0);
    }

    function Repr(): set<object> {
      {this, goalBit, cacheBuf}
    }

    ghost predicate Shape()
      reads this
    {
      && WfGeo(geo)
      && |maps| == |counts| == geo.groups
      && goalBit.Length == geo.groups && cacheBuf.Length == BLOCK_SIZE
      && goalBit as object != cacheBuf
      && 1 <= batch
    }

    /** A valid cache holds what is on disk for its group and has nothing left to write. */
    ghost predicate Coherent()
      requires Shape()
      reads this, cacheBuf
    {
      cacheValid ==> cacheGroup < geo.groups && !cacheDirty && cacheBuf[..] == maps[cacheGroup]
    }

    ghost predicate Valid()
      reads Repr()
    {
      && Shape()
      && Coherent()
      && CountsMatch(geo, maps, counts)
      && desc0 == counts[0]
    }

    /** The abstract state: the set of free blocks. */
    ghost function Free(): set<nat>
      requires Shape()
      reads this
    {
      FreeSet(geo, maps)
    }

    ghost function Avail(): set<nat>
      requires Shape()
      reads this
    {
      AvailSet(geo, maps)
    }

    /** The superblock total is exact once every update has been written back. */
    ghost predicate Synced()
      requires Shape()
      reads this
    {
      pending == 0 ==> superFree == |Free()|
    }

    method CacheFlush()
      requires Shape()
      requires cacheValid ==> cacheGroup < geo.groups
      modifies this`maps, this`cacheDirty
      ensures Shape()
      ensures cacheValid && old(cacheDirty) ==> maps == old(maps)[cacheGroup := cacheBuf[..]] && !cacheDirty
      ensures !(cacheValid && old(cacheDirty)) ==> maps == old(maps) && cacheDirty == old(cacheDirty)
    {
      if !cacheValid || !cacheDirty {
        return;
      }
      maps := maps[cacheGroup := cacheBuf[..]];
      cacheDirty := false;
    }

    method CacheLoad(g: nat)
      requires Valid() && g < geo.groups
      modifies this`maps, this`cacheDirty, this`cacheGroup, this`cacheValid, cacheBuf
      ensures Valid()
      ensures cacheValid && cacheGroup == g && maps == old(maps)
    {
      if cacheValid && cacheGroup == g {
        return;
      }
      CacheFlush();
      var m := maps[g];
      forall k | 0 <= k < BLOCK_SIZE {
        cacheBuf[k] := m[k];
      }
      assert cacheBuf[..] == m;
      cacheGroup, cacheValid, cacheDirty := g, true, false;
    }

    /** ext4_sync_super_free_counts: the superblock total becomes the sum over the groups. */
    method SyncSuper()
      requires Shape()
      modifies this`superFree
      ensures superFree == Sum(counts)
    {
      superFree := AddUp(counts);
    }

    /** One update more is pending, or the total has just been written back. */
    twostate predicate Noted()
      reads this
    {
      && batch == old(batch) && pending == (if old(pending) + 1 < batch then old(pending) + 1 else 0)
      && (pending != 0 ==> superFree == old(superFree))
    }

    /** Counting one more update, and writing the total back when the batch is full. */
    method CountUpdate()
      requires Shape()
      modifies this`superFree, this`pending
      ensures Shape() && Noted() && (pending == 0 ==> superFree == Sum(counts))
      ensures old(Valid()) ==> Valid() && Synced()
    {
      hide WfGeo;
      pending := pending + 1;
      if pending >= batch {
        SyncSuper();
        if CountsMatch(geo, maps, counts) {
          SumIsFree(geo, maps, counts);
        }
        pending := 0;
      }
    }

    /** ext4_balloc_flush */
    method Flush()
      requires Valid()
      modifies this`maps, this`cacheDirty, this`superFree, this`pending
      ensures Valid() && maps == old(maps) && pending == 0
      ensures old(pending) > 0 ==> superFree == |Free()|
      ensures old(pending) == 0 ==> superFree == old(superFree)
    {
      CacheFlush();
      if pending > 0 {
        SyncSuper();
        SumIsFree(geo, maps, counts);
        pending := 0;
      }
    }

    method SetBatch(n: nat)
      requires Valid()
      modifies this`batch
      ensures Valid() && batch == if n == 0 then 1 else n
    {
      batch := if n == 0 then 1 else n;
    }

    /** Nothing of the allocation state has changed since the method began, the cache excepted. */
    twostate predicate Untouched()
      reads this, goalBit
    {
      && maps == old(maps) && counts == old(counts) && goalBit[..] == old(goalBit[..])
      && goalGroup == old(goalGroup) && pending == old(pending) && superFree == old(superFree)
      && batch == old(batch) && desc0 == old(desc0)
    }

    /** The scan of one group: from the cursor to the end first, then from bit 1 up to the cursor. */
    method FindRun(g: nat, goal: nat, mustFull: bool) returns (found: bool, i: nat, n: nat)
      requires Valid() && g < geo.groups && 1 <= goal
      modifies this`maps, this`cacheDirty, this`cacheGroup, this`cacheValid, cacheBuf
      ensures Valid() && Untouched()
      ensures found ==>
        && 1 <= i && 1 <= n <= goal && i + n <= GroupBlocks(geo, g) <= BITS
        && ClearRun(maps[g], i, n) && HasSideRun(geo, maps, goalBit[..], g, n) && (mustFull ==> n == goal)
        && PickedNext(maps[g], CursorOf(geo, goalBit[..], g), GroupBlocks(geo, g), goal, if mustFull then goal else 1,
            i, n)
        && cacheValid && cacheGroup == g
      ensures !found && mustFull ==> !HasSideRun(geo, maps, goalBit[..], g, goal)
      ensures !found && !mustFull ==> GroupFull(geo, maps, g)
    {
      GroupFits(geo, g);
      var groupBlocks := GroupBlocks(geo, g);
      if groupBlocks <= 1 {
        return false, 0, 0;
      }
      CacheLoad(g);
      hide Bit;
      ghost var m := maps[g];
      var startBit := CursorOf(geo, goalBit[..], g);
      found, i, n := ScanSides(g, startBit, groupBlocks, goal, mustFull);
    }

    /** From the cursor to the end, then from bit 1 up to the cursor. */
    method ScanSides(g: nat, startBit: nat, groupBlocks: nat, goal: nat, mustFull: bool)
      returns (found: bool, i: nat, n: nat)
      requires Shape() && g < geo.groups && cacheBuf[..] == maps[g] && 1 <= goal
      requires 1 <= startBit < groupBlocks <= BITS
      ensures found ==>
        && 1 <= i && 1 <= n <= goal && i + n <= groupBlocks && ClearRun(maps[g], i, n) && (mustFull ==> n == goal)
        && SideRun(maps[g], startBit, groupBlocks, n)
        && PickedNext(maps[g], startBit, groupBlocks, goal, if mustFull then goal else 1, i, n)
      ensures !found && mustFull ==> !SideRun(maps[g], startBit, groupBlocks, goal)
      ensures !found && !mustFull ==> forall k :: 1 <= k < groupBlocks ==> Bit(maps[g], k)
    {
      hide Bit, NoRun, WfGeo;
      ghost var m, want := maps[g], if mustFull then goal else 1;
      found, i, n := ScanFreeRun(cacheBuf, startBit, groupBlocks, goal, 0, 0, mustFull);
      if found {
        FoundBehind(m, startBit, groupBlocks, goal, want, i, n);
        return;
      }
      ghost var n1 := n;
      NoRunMono(m, startBit, groupBlocks, n1 + 1, want);
      if startBit > 1 {
        found, i, n := ScanFreeRun(cacheBuf, 1, startBit, goal, i, n, mustFull);
      }
      if !found {
        EmptySide(m);
        NothingFound(m, startBit, groupBlocks, goal, n1, n);
      }
    }

    /** The cursors stand right behind a run that ended at bit next of group g, at the beginning of the next
        group when that was the end of its group. */
    twostate predicate CursorsBehind(g: nat, next: nat)
      reads this, goalBit
    {
      && g < goalBit.Length && |old(goalBit[..])| == goalBit.Length
      && if next >= GroupBlocks(geo, g) then
           && goalBit[..] == old(goalBit[..])[g := 1]
           && goalGroup == if g + 1 < geo.groups then g + 1 else 0
         else
           goalBit[..] == old(goalBit[..])[g := next] && goalGroup == g
    }

    /** Lines 492-511 */
    method MoveCursors(g: nat, next: nat)
      requires g < geo.groups == goalBit.Length && 0 < GroupBlocks(geo, g)
      modifies this`goalGroup, goalBit
      ensures CursorsBehind(g, next)
    {
      if next >= GroupBlocks(geo, g) {
        goalBit[g] := 1;
        goalGroup := if g + 1 < geo.groups then g + 1 else 0;
      } else {
        goalBit[g] := next;
        goalGroup := g;
      }
    }

    /** The bookkeeping after a run has been found: bitmap, counts, cursors and pending updates. */
    method TakeRun(g: nat, i: nat, len: nat)
      requires Valid() && g < geo.groups && cacheValid && cacheGroup == g
      requires 1 <= i && 1 <= len && i + len <= GroupBlocks(geo, g) <= BITS && ClearRun(maps[g], i, len)
      modifies Repr()
      ensures Valid() && Synced() && Noted()
      ensures maps == old(maps)[g := SetRun(old(maps)[g], i, len)] && CursorsBehind(g, i + len)
    {
      hide Bit, SetRun, FreeCount, GroupBlocks, CountsMatch, ClearRun;
      ghost var m := maps[g];
      CountsAfterTake(geo, maps, counts, g, i, len);
      MarkBlocks(cacheBuf, i, len);
      cacheDirty := true;
      CacheFlush();
      counts := counts[g := if counts[g] > len then counts[g] - len else 0];
      if g == 0 {
        desc0 := counts[0];
      }
      MoveCursors(g, i + len);
      assert maps == old(maps)[g := SetRun(m, i, len)];
      CountUpdate();
    }
  
    /** What a successful allocation of [blk, blk + len) has done to the free set. */
    twostate predicate Allocated(blk: nat, len: nat)
      requires old(Shape()) && Shape()
      reads this
    {
      && 1 <= len && 1 <= blk && blk + len <= geo.blocks
      && 1 <= blk % geo.perGroup && blk % geo.perGroup + len <= geo.perGroup
      && RunSet(blk, len) <= old(Free())
      && Free() == old(Free()) - RunSet(blk, len)
    }

    method TakeFound(g: nat, i: nat, n: nat) returns (blk: nat)
      requires Valid() && g < geo.groups && cacheValid && cacheGroup == g
      requires 1 <= i && 1 <= n && i + n <= GroupBlocks(geo, g) <= BITS && ClearRun(maps[g], i, n)
      modifies Repr()
      ensures Valid() && Synced() && Noted()
      ensures Allocated(blk, n) && blk == Start(geo, g) + i && blk / geo.perGroup == g && blk % geo.perGroup == i
      ensures CursorsBehind(g, i + n)
    {
      hide Bit, GroupBlocks, FreeSet;
      RunPlace(geo, g, i, n);
      AllocRun(geo, maps, g, i, n);
      TakeRun(g, i, n);
      blk := Start(geo, g) + i;
    }

    /** One pass over all groups, beginning with group first and wrapping round. */
    method ScanGroups(first: nat, goal: nat, mustFull: bool) returns (blk: nat, len: nat, ghost hit: nat)
      requires Valid() && first < geo.groups && 1 <= goal
      modifies Repr()
      ensures Valid()
      ensures blk == 0 ==> Untouched()
      ensures blk == 0 && mustFull ==> forall g: nat :: g < geo.groups ==> !HasSideRun(geo, maps, goalBit[..], g, goal)
      ensures blk == 0 && !mustFull ==> forall g: nat :: g < geo.groups ==> GroupFull(geo, maps, g)
      ensures blk != 0 ==>
        && Allocated(blk, len) && len <= goal && (mustFull ==> len == goal)
        && Synced() && Noted()
        && hit < geo.groups && HasSideRun(geo, old(maps), old(goalBit[..]), hit, len) && !GroupFull(geo, old(maps), hit)
      ensures blk != 0 ==>
        && hit == blk / geo.perGroup && FirstSuch(geo, old(maps), old(goalBit[..]), first, goal, mustFull, hit)
        && PickedAt(geo, old(maps), old(goalBit[..]), goal, mustFull, blk, len)
        && CursorsBehind(hit, blk % geo.perGroup + len)
    {
      hide HasSideRun, FreeSet, CountsMatch, Bit, GroupBlocks;
      blk, len, hit := 0, 0, 0;
      var scanned := 0;
      while scanned < geo.groups
        invariant scanned <= geo.groups
        invariant Valid() && Untouched()
        invariant mustFull ==> forall g: nat :: g < geo.groups && Visited(first, scanned, geo.groups, g) ==>
                                                  !HasSideRun(geo, maps, goalBit[..], g, goal)
        invariant !mustFull ==> forall g: nat :: g < geo.groups && Visited(first, scanned, geo.groups, g) ==>
                                                   GroupFull(geo, maps, g)
      {
        var g := first + scanned;
        if g >= geo.groups {
          g := g - geo.groups;
        }
        var found, i, n := FindRun(g, goal, mustFull);
        if found {
          assert !Bit(maps[g], i);
          FirstFound(geo, maps, goalBit[..], first, scanned, goal, mustFull, g, i);
          blk := TakeFound(g, i, n);
          return blk, n, g;
        }
        scanned := scanned + 1;
      }
    }

    /** Lines 400-521: a pass that insists on the full goal, when that is more than one block, then one that
        takes the longest run of the first group that has any. */
    method TwoPasses(first: nat, goal: nat) returns (blk: nat, len: nat, ghost mustFull: bool, ghost hit: nat)
      requires Valid() && first < geo.groups && 1 <= goal
      modifies Repr()
      ensures Valid()
      ensures blk == 0 ==> Untouched() && forall g: nat :: g < geo.groups ==> GroupFull(geo, maps, g)
      ensures if mustFull then goal > 1 && blk != 0 && len == goal
              else goal > 1 ==> !SomeSuits(geo, old(maps), old(goalBit[..]), goal)
      ensures blk != 0 ==>
        && Allocated(blk, len) && len <= goal && Synced() && Noted()
        && hit < geo.groups && HasSideRun(geo, old(maps), old(goalBit[..]), hit, len) && !GroupFull(geo, old(maps), hit)
      ensures blk != 0 ==>
        && hit == blk / geo.perGroup && FirstSuch(geo, old(maps), old(goalBit[..]), first, goal, mustFull, hit)
        && PickedAt(geo, old(maps), old(goalBit[..]), goal, mustFull, blk, len)
        && CursorsBehind(hit, blk % geo.perGroup + len)
    {
      hide HasSideRun, GroupFull, FreeSet, CountsMatch, PickedAt, Bit, GroupBlocks;
      blk, len, mustFull, hit := 0, 0, false, 0;
      if goal > 1 {
        blk, len, hit := ScanGroups(first, goal, true);
        mustFull := blk != 0;
      }
      if blk == 0 {
        blk, len, hit := ScanGroups(first, goal, false);
      }
    }

    /** ext4_new_blocks_in_group */
    method NewBlocksInGroup(goalLen: nat, preferred: nat) returns (blk: nat, len: nat)
      requires Valid()
      modifies Repr()
      ensures Valid()
      ensures blk == 0 <==> forall g: nat :: g < geo.groups ==> GroupFull(geo, old(maps), g)
      ensures blk == 0 <==> old(Avail()) == {}
      ensures blk == 0 ==> Untouched()
      ensures blk != 0 ==> Allocated(blk, len) && Synced() && Noted()
      ensures blk != 0 ==> len <= if goalLen == 0 then 1 else goalLen
      ensures goalLen > 1 ==>
        (blk != 0 && len == goalLen <==>
         exists g: nat :: g < geo.groups && HasSideRun(geo, old(maps), old(goalBit[..]), g, goalLen))
      ensures blk != 0 ==>
        && NextFit(geo, old(maps), old(goalBit[..]), old(goalGroup), goalLen, preferred, blk, len)
        && CursorsBehind(blk / geo.perGroup, blk % geo.perGroup + len)
    {
      FullMeansNone(geo, maps);
      hide HasSideRun, GroupFull, FreeSet, CountsMatch, AvailSet, PickedAt, FirstSuch, NextFit, Bit, GroupBlocks;
      ghost var maps0, cursors := maps, goalBit[..];
      var goal := if goalLen == 0 then 1 else goalLen;
      var first := goalGroup;
      if preferred < geo.groups {
        first := preferred;
      }
      if first >= geo.groups {
        first := 0;
      }
      ghost var mustFull, hit;
      blk, len, mustFull, hit := TwoPasses(first, goal);
      if blk != 0 {
        NextFitParts(geo, maps0, cursors, old(goalGroup), goalLen, preferred, mustFull, blk, len);
      }
    }

    method NewBlocks(goalLen: nat) returns (blk: nat, len: nat)
      requires Valid()
      modifies Repr()
      ensures Valid()
      ensures blk == 0 <==> old(Avail()) == {}
      ensures blk == 0 ==> Untouched()
      ensures blk != 0 ==> Synced() && Noted()
      ensures blk != 0 ==> Allocated(blk, len) && len <= if goalLen == 0 then 1 else goalLen
      ensures blk != 0 ==>
        && NextFit(geo, old(maps), old(goalBit[..]), old(goalGroup), goalLen, NO_GROUP, blk, len)
        && CursorsBehind(blk / geo.perGroup, blk % geo.perGroup + len)
    {
      blk, len := NewBlocksInGroup(goalLen, NO_GROUP);
    }

    method NewBlock() returns (blk: nat)
      requires Valid()
      modifies Repr()
      ensures Valid()
      ensures blk == 0 <==> old(Avail()) == {}
      ensures blk == 0 ==> Untouched()
      ensures blk != 0 ==> Allocated(blk, 1) && Synced() && Noted()
      ensures blk != 0 ==>
        && NextFit(geo, old(maps), old(goalBit[..]), old(goalGroup), 1, NO_GROUP, blk, 1)
        && CursorsBehind(blk / geo.perGroup, blk % geo.perGroup + 1)
    {
      var len;
      blk, len := NewBlocks(1);
    }

    /** A scratch copy of the bitmap on disk with bit i cleared. */
    method ClearedCopy(g: nat, i: nat) returns (m: Bits)
      requires Shape() && g < geo.groups && i < BITS
      ensures m == ClearBit(maps[g], i)
    {
      var src := maps[g];
      var buf := new bv8[BLOCK_SIZE];
      forall k | 0 <= k < BLOCK_SIZE {
        buf[k] := src[k];
      }
      assert buf[..] == src;
      DropBit(buf, i);
      m := buf[..];
    }

    /** Lines 581-643: clear the bit on disk, count it, and let go of a cached copy of the group. */
    method ClearOnDisk(g: nat, i: nat)
      requires Valid() && g < geo.groups && i < geo.perGroup <= BITS && Bit(maps[g], i)
      modifies this
      ensures Shape() && Noted() && maps == old(maps)[g := ClearBit(old(maps)[g], i)]
      ensures goalGroup == old(goalGroup) && cacheValid == (old(cacheValid) && old(cacheGroup) != g)
      ensures Valid() <==> i < GroupBlocks(geo, g)
      ensures Valid() ==> Synced()
    {
      hide WfGeo, Bit, FreeCount, GroupBlocks, ClearBit, CountsMatch;
      CountsAfterClear(geo, maps, counts, g, i);
      var m := ClearedCopy(g, i);
      maps := maps[g := m];
      counts := counts[g := (counts[g] + 1) % 0x1_0000];
      if g == 0 {
        desc0 := counts[0];
      }
      if cacheValid && cacheGroup == g {
        cacheValid, cacheDirty := false, false;
      }
      CountUpdate();
    }

    /** ext4_free_block works on the bitmap on disk, so it is right only because the cache is never
        ahead of it; afterwards the cache no longer vouches for the group.  A number behind the last block
        but inside the last group passes its check: a set tail bit is cleared then, and counted although it
        stands for no block. */
    method FreeBlock(b: nat) returns (ok: bool)
      requires Valid()
      modifies this
      ensures Shape() && batch == old(batch) && goalGroup == old(goalGroup)
      ensures Valid() <==> Countable(geo, old(maps), b)
      ensures ok <==> b / geo.perGroup < geo.groups
      ensures Free() == if b < geo.blocks then old(Free()) + {b} else old(Free())
      ensures b < geo.blocks ==> ok
      ensures b < geo.blocks && b !in old(Free()) ==> Synced() && Noted()
      ensures Countable(geo, old(maps), b) && (geo.blocks <= b || b in old(Free())) ==> Untouched()
    {
      hide FreeSet, Bit, GroupBlocks, ClearBit, CountsMatch, Start;
      var g, i := b / geo.perGroup, b % geo.perGroup;
      FreePlace(geo, maps, b, g, i);
      if g >= geo.groups {
        return false;
      }
      if !Bit(maps[g], i) {
        return true;
      }
      ClearOnDisk(g, i);
      ok := true;
    }
  }

  /** Setting a clear run and taking its length off the count of its group keeps the counts right; the clamp
      at 0 loses nothing. */
  lemma CountsAfterTake(geo: Geo, maps: seq<Bits>, counts: seq<nat>, g: nat, i: nat, len: nat)
    requires CountsMatch(geo, maps, counts) && g < geo.groups
    requires i + len <= GroupBlocks(geo, g) <= BITS && ClearRun(maps[g], i, len)
    ensures |maps| == |counts| == geo.groups
    ensures CountsMatch(geo, maps[g := SetRun(maps[g], i, len)],
                        counts[g := if counts[g] > len then counts[g] - len else 0])
  {
    hide Bit, SetRun, FreeCount;
    CountSetRun(maps[g], i, len, GroupBlocks(geo, g));
  }

  /** Freeing number b keeps the counts right: it is in range, or is refused, or its bit is clear. */
  ghost predicate Countable(geo: Geo, maps: seq<Bits>, b: nat)
    requires WfGeo(geo) && |maps| == geo.groups
  {
    b < geo.blocks || geo.groups <= b / geo.perGroup || !Bit(maps[b / geo.perGroup], b % geo.perGroup)
  }

  /** Clearing a set bit and adding one to the count of its group keeps the counts right exactly when the
      bit stands for a block. */
  lemma CountsAfterClear(geo: Geo, maps: seq<Bits>, counts: seq<nat>, g: nat, i: nat)
    requires WfGeo(geo) && CountsMatch(geo, maps, counts) && g < geo.groups && i < geo.perGroup && Bit(maps[g], i)
    ensures CountsMatch(geo, maps[g := ClearBit(maps[g], i)], counts[g := (counts[g] + 1) % 0x1_0000]) <==>
            i < GroupBlocks(geo, g)
  {
    hide Bit, ClearBit, FreeCount;
    var n := GroupBlocks(geo, g);
    GroupFits(geo, g);
    if i < n {
      CountClearBit(maps[g], i, n);
    } else {
      forall k | 0 <= k < n
        ensures Bit(maps[g], k) == Bit(ClearBit(maps[g], i), k)
      {
        BitAfterClear(maps[g], i, k);
      }
      CountSame(maps[g], ClearBit(maps[g], i), n);
    }
  }

  // ---------- which run is handed out ----------

  /** The group the search begins with: the one asked for, the one the last run ended in, or the first. */
  function FirstGroup(groups: nat, goalGroup: nat, preferred: nat): nat {
    if preferred < groups then preferred else if goalGroup < groups then goalGroup else 0
  }

  /** How many groups a search that begins with group first looks at before group g. */
  function StepsTo(first: nat, groups: nat, g: nat): int {
    if first <= g then g - first else g + groups - first
  }

  /** What a pass looks for in a group: a run of the full goal beside the cursor, or any clear block. */
  ghost predicate Suits(geo: Geo, maps: seq<Bits>, cursors: seq<nat>, goal: nat, mustFull: bool, g: nat)
    requires g < |maps| && g < |cursors|
  {
    if mustFull then HasSideRun(geo, maps, cursors, g, goal) else !GroupFull(geo, maps, g)
  }

  ghost predicate SomeSuits(geo: Geo, maps: seq<Bits>, cursors: seq<nat>, goal: nat)
    requires |maps| == |cursors| == geo.groups
  {
    exists g: nat :: g < geo.groups && HasSideRun(geo, maps, cursors, g, goal)
  }

  /** Group hit suits, and none that comes before it in the order of the search does. */
  ghost predicate FirstSuch(geo: Geo, maps: seq<Bits>, cursors: seq<nat>, first: nat, goal: nat, mustFull: bool,
                            hit: nat)
    requires |maps| == |cursors| == geo.groups
  {
    && hit < geo.groups && Suits(geo, maps, cursors, goal, mustFull, hit)
    && forall g: nat :: g < geo.groups && Suits(geo, maps, cursors, goal, mustFull, g) ==>
                          StepsTo(first, geo.groups, hit) <= StepsTo(first, geo.groups, g)
  }

  /** The run at blk is the one that next fit picks in its group. */
  ghost predicate PickedAt(geo: Geo, maps: seq<Bits>, cursors: seq<nat>, goal: nat, mustFull: bool, blk: nat, len: nat)
    requires |maps| == |cursors| == geo.groups && 0 < geo.perGroup
  {
    && var g := blk / geo.perGroup;
    && g < geo.groups && 0 <= GroupBlocks(geo, g)
    && PickedNext(maps[g], CursorOf(geo, cursors, g), GroupBlocks(geo, g), goal, if mustFull then goal else 1,
                  blk % geo.perGroup, len)
  }

  /** The run of ext4_new_blocks_in_group: a full goal is insisted on when it is more than one block and some
      group has it. */
  ghost predicate NextFit(geo: Geo, maps: seq<Bits>, cursors: seq<nat>, goalGroup: nat, goalLen: nat, preferred: nat,
                          blk: nat, len: nat)
    requires |maps| == |cursors| == geo.groups && 0 < geo.perGroup
  {
    && var goal := if goalLen == 0 then 1 else goalLen;
    && var mustFull := goal > 1 && SomeSuits(geo, maps, cursors, goal);
    && FirstSuch(geo, maps, cursors, FirstGroup(geo.groups, goalGroup, preferred), goal, mustFull, blk / geo.perGroup)
    && PickedAt(geo, maps, cursors, goal, mustFull, blk, len)
  }

  lemma NextFitParts(geo: Geo, maps: seq<Bits>, cursors: seq<nat>, goalGroup: nat, goalLen: nat, preferred: nat,
                     mustFull: bool, blk: nat, len: nat)
    requires |maps| == |cursors| == geo.groups && 0 < geo.perGroup
    requires if mustFull then goalLen > 1 else goalLen > 1 ==> !SomeSuits(geo, maps, cursors, goalLen)
    requires var goal := if goalLen == 0 then 1 else goalLen;
             && FirstSuch(geo, maps, cursors, FirstGroup(geo.groups, goalGroup, preferred), goal, mustFull,
                    blk / geo.perGroup)
             && PickedAt(geo, maps, cursors, goal, mustFull, blk, len)
    ensures NextFit(geo, maps, cursors, goalGroup, goalLen, preferred, blk, len)
  {
    hide HasSideRun, GroupFull, PickedAt;
    if mustFull {
      assert HasSideRun(geo, maps, cursors, blk / geo.perGroup, goalLen);
    }
  }

  /** Bitmaps, cursors and request decide which run it is. */
  lemma NextFitOnce(geo: Geo, maps: seq<Bits>, cursors: seq<nat>, goalGroup: nat, goalLen: nat, preferred: nat,
                    blk: nat, len: nat, blk': nat, len': nat)
    requires WfGeo(geo) && |maps| == |cursors| == geo.groups
    requires NextFit(geo, maps, cursors, goalGroup, goalLen, preferred, blk, len)
    requires NextFit(geo, maps, cursors, goalGroup, goalLen, preferred, blk', len')
    ensures blk == blk' && len == len'
  {
    hide Suits, Picked, SomeSuits, CursorOf, GroupBlocks, NoRun;
    var goal, g := if goalLen == 0 then 1 else goalLen, blk / geo.perGroup;
    var mustFull := goal > 1 && SomeSuits(geo, maps, cursors, goal);
    assert g == blk' / geo.perGroup;
    var cursor, want := CursorOf(geo, cursors, g), if mustFull then goal else 1;
    if NoRun(maps[g], cursor, GroupBlocks(geo, g), want) {
      PickedOnce(maps[g], 1, cursor, goal, blk % geo.perGroup, len, blk' % geo.perGroup, len');
    } else {
      PickedOnce(maps[g], cursor, GroupBlocks(geo, g), goal, blk % geo.perGroup, len, blk' % geo.perGroup, len');
    }
  }

  /** The group asked for, or else the one that the last run ended in, answers a request for one block unless it
      is full. */
  lemma PreferredAnswers(geo: Geo, maps: seq<Bits>, cursors: seq<nat>, goalGroup: nat, preferred: nat, blk: nat,
                         len: nat)
    requires 0 < geo.perGroup && |maps| == |cursors| == geo.groups
    requires NextFit(geo, maps, cursors, goalGroup, 1, preferred, blk, len)
    ensures len == 1
    ensures preferred < geo.groups && !GroupFull(geo, maps, preferred) ==> blk / geo.perGroup == preferred
    ensures geo.groups <= preferred && goalGroup < geo.groups && !GroupFull(geo, maps, goalGroup) ==>
              blk / geo.perGroup == goalGroup
  {
    hide GroupFull, CursorOf, GroupBlocks, NoRun, ClearRun, HasSideRun, SomeSuits;
    var first := FirstGroup(geo.groups, goalGroup, preferred);
    if first < geo.groups && !GroupFull(geo, maps, first) {
      assert Suits(geo, maps, cursors, 1, false, first);
    }
    OneBlockOnly(geo, maps, cursors, blk, len);
  }

  /** When the full goal can be had at or behind the cursor of the group, the run is the first such. */
  lemma CursorFirst(geo: Geo, maps: seq<Bits>, cursors: seq<nat>, goalGroup: nat, goalLen: nat, preferred: nat,
                    blk: nat, len: nat, s: nat)
    requires WfGeo(geo) && |maps| == |cursors| == geo.groups && 1 <= goalLen
    requires NextFit(geo, maps, cursors, goalGroup, goalLen, preferred, blk, len)
    requires var g := blk / geo.perGroup;
             && 1 <= cursors[g] <= s && s + goalLen <= GroupBlocks(geo, g) <= BITS && ClearRun(maps[g], s, goalLen)
    ensures len == goalLen && cursors[blk / geo.perGroup] <= blk % geo.perGroup <= s
  {
    hide ClearRun, FirstSuch, SomeSuits;
    var g, i := blk / geo.perGroup, blk % geo.perGroup;
    ShorterRun(maps[g], s, if goalLen > 1 && SomeSuits(geo, maps, cursors, goalLen) then goalLen else 1, goalLen);
    if len < goalLen {
      ShorterRun(maps[g], s, len + 1, goalLen);
    }
  }

  /** The next block after a run is the one right behind it, if that is free; behind the last block of a group it
      comes from the group that follows, the first one after the last.  Groups are counted in 32 bits. */
  method NextBehind(alloc: Allocator, goalLen: nat, preferred: nat) returns (blk: nat, len: nat, next: nat)
    requires alloc.Valid() && alloc.geo.groups <= NO_GROUP
    modifies alloc.Repr()
    ensures alloc.Valid()
    ensures blk != 0 && !EndsGroup(alloc.geo, blk + len) && blk + len in old(alloc.Free()) ==> next == blk + len
    ensures blk != 0 && next != 0 && EndsGroup(alloc.geo, blk + len) ==>
              next / alloc.geo.perGroup == GroupAfter(alloc.geo, blk) ||
              forall b :: b in alloc.Avail() ==> b / alloc.geo.perGroup != GroupAfter(alloc.geo, blk)
  {
    hide AvailSet, FreeSet, CountsMatch, HasSideRun, GroupFull, NextFit, Bit, GroupBlocks, EndsGroup, GroupAfter;
    ghost var geo := alloc.geo;
    blk, len := alloc.NewBlocksInGroup(goalLen, preferred);
    if blk == 0 {
      next := 0;
      return;
    }
    ghost var maps, cursors, group := alloc.maps, alloc.goalBit[..], alloc.goalGroup;
    NotInRun(blk, len);
    WhereBehind(geo, blk, len);
    next := alloc.NewBlock();
    if next == 0 {
      MayFollow(geo, maps, blk + len);
    } else if EndsGroup(geo, blk + len) {
      AfterEnd(geo, maps, cursors, group, alloc.maps, next);
    } else {
      BehindRun(geo, maps, cursors, group, blk + len, next);
    }
  }

  /** b is the number behind the last block of a group. */
  predicate EndsGroup(geo: Geo, b: nat)
    requires 0 < geo.perGroup
  {
    b == geo.blocks || b % geo.perGroup == 0
  }

  function GroupAfter(geo: Geo, blk: nat): nat
    requires 0 < geo.perGroup
  {
    if blk / geo.perGroup + 1 < geo.groups then blk / geo.perGroup + 1 else 0
  }

  lemma NotInRun(s: nat, n: nat)
    ensures s + n !in RunSet(s, n)
  {
  }

  lemma WhereBehind(geo: Geo, blk: nat, len: nat)
    requires WfGeo(geo) && 1 <= len && blk + len <= geo.blocks && blk % geo.perGroup + len <= geo.perGroup
    ensures EndsGroup(geo, blk + len) <==> blk % geo.perGroup + len >= GroupBlocks(geo, blk / geo.perGroup)
    ensures !EndsGroup(geo, blk + len) ==>
              && (blk + len) / geo.perGroup == blk / geo.perGroup
              && (blk + len) % geo.perGroup == blk % geo.perGroup + len
    ensures GroupAfter(geo, blk) == if blk / geo.perGroup + 1 < geo.groups then blk / geo.perGroup + 1 else 0
  {
    var g, i := blk / geo.perGroup, blk % geo.perGroup + len;
    Locate(geo, blk);
    if i < geo.perGroup {
      DivModUnique(blk + len, geo.perGroup, g, i);
    } else {
      DivModUnique(blk + len, geo.perGroup, g + 1, 0);
    }
  }

  lemma MayFollow(geo: Geo, maps: seq<Bits>, b: nat)
    requires 0 < geo.perGroup <= BITS
    ensures b in FreeSet(geo, maps) && !EndsGroup(geo, b) ==> b in AvailSet(geo, maps)
  {
    hide Bit;
  }

  lemma BehindRun(geo: Geo, maps: seq<Bits>, cursors: seq<nat>, goalGroup: nat, b: nat, next: nat)
    requires WfGeo(geo) && geo.groups <= NO_GROUP && |maps| == |cursors| == geo.groups && !EndsGroup(geo, b)
    requires goalGroup < geo.groups && b / geo.perGroup == goalGroup && b % geo.perGroup == cursors[goalGroup]
    requires NextFit(geo, maps, cursors, goalGroup, 1, NO_GROUP, next, 1)
    ensures b in FreeSet(geo, maps) ==> next == b
  {
    hide NextFit, Bit;
    if b in FreeSet(geo, maps) {
      var i := b % geo.perGroup;
      Locate(geo, b);
      assert !Bit(maps[goalGroup], i);
      PreferredAnswers(geo, maps, cursors, goalGroup, NO_GROUP, next, 1);
      CursorFirst(geo, maps, cursors, goalGroup, 1, NO_GROUP, next, 1, i);
      assert next == (next / geo.perGroup) * geo.perGroup + next % geo.perGroup;
    }
  }

  lemma AfterEnd(geo: Geo, maps: seq<Bits>, cursors: seq<nat>, goalGroup: nat, after: seq<Bits>, next: nat)
    requires WfGeo(geo) && geo.groups <= NO_GROUP && |maps| == |cursors| == geo.groups && goalGroup < geo.groups
    requires NextFit(geo, maps, cursors, goalGroup, 1, NO_GROUP, next, 1)
    requires FreeSet(geo, after) <= FreeSet(geo, maps)
    ensures next / geo.perGroup == goalGroup || forall b :: b in AvailSet(geo, after) ==> b / geo.perGroup != goalGroup
  {
    hide NextFit, Bit;
    PreferredAnswers(geo, maps, cursors, goalGroup, NO_GROUP, next, 1);
    if GroupFull(geo, maps, goalGroup) {
      forall b | b in AvailSet(geo, after)
        ensures b / geo.perGroup != goalGroup
      {
        assert b in FreeSet(geo, after);
        Locate(geo, b);
      }
    }
  }

  lemma OneBlockOnly(geo: Geo, maps: seq<Bits>, cursors: seq<nat>, blk: nat, len: nat)
    requires |maps| == |cursors| == geo.groups && 0 < geo.perGroup && PickedAt(geo, maps, cursors, 1, false, blk, len)
    ensures len == 1
  {
    hide CursorOf, GroupBlocks, NoRun, ClearRun;
  }

  lemma FirstFound(geo: Geo, maps: seq<Bits>, cursors: seq<nat>, first: nat, scanned: nat, goal: nat, mustFull: bool,
                   hit: nat, i: nat)
    requires |maps| == |cursors| == geo.groups && first < geo.groups && scanned < geo.groups && hit < geo.groups
    requires hit == if first + scanned >= geo.groups then first + scanned - geo.groups else first + scanned
    requires forall g: nat :: g < geo.groups && Visited(first, scanned, geo.groups, g) ==>
               !Suits(geo, maps, cursors, goal, mustFull, g)
    requires mustFull ==> HasSideRun(geo, maps, cursors, hit, goal)
    requires 1 <= i < GroupBlocks(geo, hit) && i < BITS && !Bit(maps[hit], i)
    ensures FirstSuch(geo, maps, cursors, first, goal, mustFull, hit)
  {
    hide HasSideRun, Bit, GroupBlocks;
    forall g: nat | g < geo.groups && Suits(geo, maps, cursors, goal, mustFull, g)
      ensures StepsTo(first, geo.groups, hit) <= StepsTo(first, geo.groups, g)
    {
      assert !Visited(first, scanned, geo.groups, g);
    }
  }

  lemma FreePlace(geo: Geo, maps: seq<Bits>, b: nat, g: nat, i: nat)
    requires WfGeo(geo) && |maps| == geo.groups && g == b / geo.perGroup && i == b % geo.perGroup
    ensures i < geo.perGroup <= BITS
    ensures g >= geo.groups ==> b >= geo.blocks
    ensures g < geo.groups ==> (b < geo.blocks <==> i < GroupBlocks(geo, g))
    ensures b in FreeSet(geo, maps) ==> b < geo.blocks && FreeSet(geo, maps) == FreeSet(geo, maps) + {b}
    ensures b < geo.blocks ==> (b in FreeSet(geo, maps) <==> !Bit(maps[g], i))
    ensures g < geo.groups ==>
              FreeSet(geo, maps[g := ClearBit(maps[g], i)]) ==
              if b < geo.blocks then FreeSet(geo, maps) + {b} else FreeSet(geo, maps)
  {
    hide Bit, ClearBit, GroupBlocks, FreeSet, Start;
    MulMono(geo.groups, g, geo.perGroup);
    if b in FreeSet(geo, maps) {
      InFreeSet(geo, maps, b);
    }
    if b < geo.blocks {
      Locate(geo, b);
      GroupFits(geo, g);
      FreeAt(geo, maps, g, i);
      FreeOne(geo, maps, g, i);
    } else if g < geo.groups {
      TailBit(geo, maps, b, g, i);
    }
  }

  lemma InFreeSet(geo: Geo, maps: seq<Bits>, b: nat)
    requires 0 < geo.perGroup <= BITS && b in FreeSet(geo, maps)
    ensures b < geo.blocks && FreeSet(geo, maps) == FreeSet(geo, maps) + {b}
  {
  }

  /** A tail bit stands for no block of the volume. */
  lemma TailBit(geo: Geo, maps: seq<Bits>, b: nat, g: nat, i: nat)
    requires WfGeo(geo) && |maps| == geo.groups && b == g * geo.perGroup + i && i < geo.perGroup && geo.blocks <= b
    requires g < geo.groups
    ensures GroupBlocks(geo, g) <= i
    ensures FreeSet(geo, maps[g := ClearBit(maps[g], i)]) == FreeSet(geo, maps)
  {
    hide Bit, ClearBit;
    var after := maps[g := ClearBit(maps[g], i)];
    forall c: nat | c < geo.blocks
      ensures IsFree(geo, after, c) == IsFree(geo, maps, c)
    {
      Locate(geo, c);
      if c / geo.perGroup == g {
        BitAfterClear(maps[g], i, c % geo.perGroup);
      }
    }
  }

  /** The groups a wrapping scan has seen after n steps. */
  ghost predicate Visited(first: nat, n: nat, groups: nat, g: nat) {
    first <= g < first + n || g + groups < first + n
  }

  lemma RunPlace(geo: Geo, g: nat, i: nat, n: nat)
    requires WfGeo(geo) && g < geo.groups && 1 <= i && 1 <= n && i + n <= GroupBlocks(geo, g)
    ensures var b := Start(geo, g) + i;
            b % geo.perGroup == i && b / geo.perGroup == g && i + n <= geo.perGroup && b + n <= geo.blocks
  {
    GroupFits(geo, g);
    LocateAt(geo, g, i);
  }

  lemma EmptySide(m: Bits)
    ensures forall n: nat :: 1 <= n ==> NoRun(m, 1, 1, n)
  {
  }

  lemma NothingFound(m: Bits, cursor: nat, end: nat, goal: nat, n1: nat, n: nat)
    requires 1 <= cursor < end <= BITS && 1 <= goal && n1 <= n
    requires NoRun(m, cursor, end, n1 + 1) && NoRun(m, 1, cursor, n + 1)
    ensures n < goal ==> !SideRun(m, cursor, end, goal)
    ensures n == 0 ==> forall k :: 1 <= k < end ==> Bit(m, k)
  {
    hide Bit;
    if n < goal {
      NoRunMono(m, cursor, end, n1 + 1, goal);
      NoRunMono(m, 1, cursor, n + 1, goal);
    }
    if n == 0 {
      forall k | 1 <= k < end
        ensures Bit(m, k)
      {
        assert !ClearRun(m, k, 1);
      }
    }
  }
}
