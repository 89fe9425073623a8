/**
 Blocks on a device of sectors (fs/ext4/io.c, block/blkdev.c): requests are cut into chunks of at most
 255 sectors, and many blocks at once are the same as one block after the other.  Every driver call
 succeeds and the device has all the sectors asked for.  The sectors stand for the data blocks of the
 disk that the rest of the model works on.
 */
module BlockIo {
  import opened ExtentTree

  const SECTOR: nat := 512
  /** Sectors per block. */
  const PER_BLOCK: nat := 8
  const MAX_CHUNK: nat := 255

  type Sector = s: seq<bv8> | |s| == SECTOR witness seq(SECTOR, _ => 0)

  const BLOCK_BYTES: nat := 4096

  // ---------- data blocks ----------

  predicate HasData(disk: Disk, b: nat) {
    b in disk && disk[b].DataBlock? && |disk[b].bytes| == BLOCK_BYTES
  }

  /** The disk after n blocks from blk on have been written one after the other. */
  function PutData(disk: Disk, blk: nat, n: nat, bytes: seq<bv8>): Disk
    requires |bytes| == n * BLOCK_BYTES
  {
    if n == 0 then disk
    else
      var done := (n - 1) * BLOCK_BYTES;
      PutData(disk, blk, n - 1, bytes[..done])[blk + n - 1 := DataBlock(bytes[done..])]
  }

  function Piece(bytes: seq<bv8>, i: nat): seq<bv8>
    requires (i + 1) * BLOCK_BYTES <= |bytes|
  {
    bytes[i * BLOCK_BYTES..(i + 1) * BLOCK_BYTES]
  }

  /** bytes are n blocks from blk on; one that holds no data yet may read as anything. */
  predicate Shows(disk: Disk, blk: nat, n: nat, bytes: seq<bv8>) {
    && |bytes| == n * BLOCK_BYTES
    && forall i: nat :: i < n && HasData(disk, blk + i) ==> Piece(bytes, i) == disk[blk + i].bytes
  }

  lemma {:induction false} PutDataAt(disk: Disk, blk: nat, n: nat, bytes: seq<bv8>, b: nat)
    requires |bytes| == n * BLOCK_BYTES
    ensures var d := PutData(disk, blk, n, bytes);
            if blk <= b < blk + n then b in d && d[b] == DataBlock(Piece(bytes, b - blk))
            else (b in d <==> b in disk) && (b in d ==> d[b] == disk[b])
  {
    if n > 0 {
      var done := (n - 1) * BLOCK_BYTES;
      PutDataAt(disk, blk, n - 1, bytes[..done], b);
      if blk <= b < blk + n - 1 {
        assert Piece(bytes[..done], b - blk) == Piece(bytes, b - blk);
      } else if b == blk + n - 1 {
        assert Piece(bytes, b - blk) == bytes[done..];
      }
    }
  }

  // ---------- sectors ----------

  /** The bytes of some sectors. */
  function Flatten(s: seq<Sector>): (t: seq<bv8>)
    ensures |t| == SECTOR * |s|
  {
    if s == [] then [] else Flatten(s[..|s| - 1]) + s[|s| - 1]
  }

  lemma {:induction false} FlattenAppend(a: seq<Sector>, b: seq<Sector>)
    ensures Flatten(a + b) == Flatten(a) + Flatten(b)
  {
    if b == [] {
      assert a + b == a;
    } else {
      assert (a + b)[..|a + b| - 1] == a + b[..|b| - 1];
      FlattenAppend(a, b[..|b| - 1]);
    }
  }

  /** The sectors of one block hold the block's bytes. */
  lemma FlattenPiece(s: seq<Sector>, n: nat, i: nat)
    requires |s| == n * PER_BLOCK && i < n
    ensures Piece(Flatten(s), i) == Flatten(s[i * PER_BLOCK..(i + 1) * PER_BLOCK])
  {
    var lo, hi := i * PER_BLOCK, (i + 1) * PER_BLOCK;
    assert s == s[..lo] + s[lo..hi] + s[hi..];
    FlattenAppend(s[..lo] + s[lo..hi], s[hi..]);
    FlattenAppend(s[..lo], s[lo..hi]);
  }

  /** The sectors hold the bytes of every data block of the disk. */
  ghost predicate Backs(s: seq<Sector>, disk: Disk) {
    forall b: nat :: HasData(disk, b) ==> (b + 1) * PER_BLOCK <= |s| && Flatten(SectorsOf(s, b)) == disk[b].bytes
  }

  /** s with t put over it from position p on. */
  function Put(s: seq<Sector>, p: nat, t: seq<Sector>): seq<Sector>
    requires p + |t| <= |s|
  {
    s[..p] + t + s[p + |t|..]
  }

  class SectorDevice {
    var sectors: seq<Sector>

    /** The driver call behind read_sectors: at most one byte's worth of sectors. */
    method ReadChunk(sector: nat, count: nat) returns (out: seq<Sector>)
      requires 1 <= count <= MAX_CHUNK && sector + count <= |sectors|
      ensures out == sectors[sector..sector + count]
    {
      out := sectors[sector..sector + count];
    }

    method WriteChunk(sector: nat, data: seq<Sector>)
      requires 1 <= |data| <= MAX_CHUNK && sector + |data| <= |sectors|
      modifies this
      ensures sectors == Put(old(sectors), sector, data)
    {
      sectors := Put(sectors, sector, data);
    }

    /** blkdev_read_sectors */
    method ReadSectors(sector: nat, count: nat) returns (out: seq<Sector>)
      requires 0 < count && sector + count <= |sectors|
      ensures out == sectors[sector..sector + count]
    {
      out := [];
      var at, remaining := sector, count;
      while remaining > 0
        invariant 0 <= remaining && at + remaining == sector + count && sector <= at
        invariant out == sectors[sector..at]
      {
        var chunk := if remaining > MAX_CHUNK then MAX_CHUNK else remaining;
        var part := ReadChunk(at, chunk);
        assert sectors[sector..at] + sectors[at..at + chunk] == sectors[sector..at + chunk];
        out := out + part;
        at := at + chunk;
        remaining := remaining - chunk;
      }
    }

    /** blkdev_write_sectors */
    method WriteSectors(sector: nat, data: seq<Sector>)
      requires 0 < |data| && sector + |data| <= |sectors|
      modifies this
      ensures sectors == Put(old(sectors), sector, data)
    {
      var done := 0;
      assert Put(sectors, sector, data[..0]) == sectors;
      while done < |data|
        invariant 0 <= done <= |data| && |sectors| == |old(sectors)|
        invariant sectors == Put(old(sectors), sector, data[..done])
      {
        var chunk := if |data| - done > MAX_CHUNK then MAX_CHUNK else |data| - done;
        PutMore(old(sectors), sector, data, done, chunk);
        WriteChunk(sector + done, data[done..done + chunk]);
        done := done + chunk;
      }
      assert data[..done] == data;
    }

    /** ext4_read_blocks: the same as reading block after block. */
    method ReadBlocks(blk: nat, n: nat) returns (out: seq<Sector>)
      requires 0 < n && (blk + n) * PER_BLOCK <= |sectors|
      ensures |out| == n * PER_BLOCK
      ensures forall i :: 0 <= i < n ==> out[i * PER_BLOCK..(i + 1) * PER_BLOCK] == SectorsOf(sectors, blk + i)
      ensures forall disk :: Backs(sectors, disk) ==> Shows(disk, blk, n, Flatten(out))
    {
      out := ReadSectors(blk * PER_BLOCK, n * PER_BLOCK);
      forall i | 0 <= i < n
        ensures out[i * PER_BLOCK..(i + 1) * PER_BLOCK] == SectorsOf(sectors, blk + i)
      {
        InnerBlock(sectors, blk, n, i);
      }
      forall disk | Backs(sectors, disk)
        ensures Shows(disk, blk, n, Flatten(out))
      {
        ReadShows(sectors, disk, blk, n, out);
      }
    }

    /** ext4_write_blocks: afterwards block blk + i holds the i-th piece and all other blocks are as before. */
    method WriteBlocks(blk: nat, n: nat, data: seq<Sector>)
      requires 0 < n && |data| == n * PER_BLOCK && (blk + n) * PER_BLOCK <= |sectors|
      modifies this
      ensures |sectors| == |old(sectors)|
      ensures forall b: nat :: (b + 1) * PER_BLOCK <= |sectors| ==>
                SectorsOf(sectors, b) ==
                if blk <= b < blk + n then data[(b - blk) * PER_BLOCK..(b - blk + 1) * PER_BLOCK]
                                     else SectorsOf(old(sectors), b)
      ensures forall disk :: Backs(old(sectors), disk) ==> Backs(sectors, PutData(disk, blk, n, Flatten(data)))
    {
      WriteSectors(blk * PER_BLOCK, data);
      forall b: nat | (b + 1) * PER_BLOCK <= |sectors|
        ensures SectorsOf(sectors, b) ==
                if blk <= b < blk + n then data[(b - blk) * PER_BLOCK..(b - blk + 1) * PER_BLOCK]
                                     else SectorsOf(old(sectors), b)
      {
        PutBlock(old(sectors), blk, n, data, b);
      }
      forall disk | Backs(old(sectors), disk)
        ensures Backs(sectors, PutData(disk, blk, n, Flatten(data)))
      {
        WriteBacks(old(sectors), sectors, disk, blk, n, data);
      }
    }
  }

  /** The sectors of one block (ext4_read_block). */
  function SectorsOf(s: seq<Sector>, b: nat): seq<Sector>
    requires (b + 1) * PER_BLOCK <= |s|
  {
    s[b * PER_BLOCK..(b + 1) * PER_BLOCK]
  }

  lemma ReadShows(s: seq<Sector>, disk: Disk, blk: nat, n: nat, out: seq<Sector>)
    requires Backs(s, disk) && (blk + n) * PER_BLOCK <= |s| && |out| == n * PER_BLOCK
    requires forall i :: 0 <= i < n ==> out[i * PER_BLOCK..(i + 1) * PER_BLOCK] == SectorsOf(s, blk + i)
    ensures Shows(disk, blk, n, Flatten(out))
  {
    forall i: nat | i < n && HasData(disk, blk + i)
      ensures Piece(Flatten(out), i) == disk[blk + i].bytes
    {
      FlattenPiece(out, n, i);
    }
  }

  /** Writing many blocks at once does to the data blocks what writing one after the other does. */
  lemma WriteBacks(s: seq<Sector>, s': seq<Sector>, disk: Disk, blk: nat, n: nat, data: seq<Sector>)
    requires Backs(s, disk) && |s'| == |s| && (blk + n) * PER_BLOCK <= |s| && |data| == n * PER_BLOCK
    requires forall b: nat :: (b + 1) * PER_BLOCK <= |s| ==>
               SectorsOf(s', b) == if blk <= b < blk + n then data[(b - blk) * PER_BLOCK..(b - blk + 1) * PER_BLOCK]
                                   else SectorsOf(s, b)
    ensures Backs(s', PutData(disk, blk, n, Flatten(data)))
  {
    hide PutData, Flatten;
    var d := PutData(disk, blk, n, Flatten(data));
    forall b: nat | HasData(d, b)
      ensures (b + 1) * PER_BLOCK <= |s'| && Flatten(SectorsOf(s', b)) == d[b].bytes
    {
      PutDataAt(disk, blk, n, Flatten(data), b);
      if blk <= b < blk + n {
        FlattenPiece(data, n, b - blk);
      } else {
        assert HasData(disk, b);
      }
    }
  }

  lemma PutMore(s: seq<Sector>, p: nat, t: seq<Sector>, done: nat, chunk: nat)
    requires p + |t| <= |s| && done + chunk <= |t|
    ensures Put(Put(s, p, t[..done]), p + done, t[done..done + chunk]) == Put(s, p, t[..done + chunk])
  {
    assert t[..done] + t[done..done + chunk] == t[..done + chunk];
  }

  lemma InnerBlock(s: seq<Sector>, blk: nat, n: nat, i: nat)
    requires i < n && (blk + n) * PER_BLOCK <= |s|
    ensures s[blk * PER_BLOCK..(blk + n) * PER_BLOCK][i * PER_BLOCK..(i + 1) * PER_BLOCK] == SectorsOf(s, blk + i)
  {
    Slices(s, blk * PER_BLOCK, n * PER_BLOCK, i * PER_BLOCK, (i + 1) * PER_BLOCK);
  }

  lemma Slices(s: seq<Sector>, at: nat, n: nat, lo: nat, hi: nat)
    requires at + n <= |s| && lo <= hi <= n
    ensures s[at..at + n][lo..hi] == s[at + lo..at + hi]
  {
    var outer, left, right := s[at..at + n], s[at..at + n][lo..hi], s[at + lo..at + hi];
    forall k | 0 <= k < |left|
      ensures left[k] == right[k]
    {
      assert outer[lo + k] == s[at + lo + k];
    }
  }

  lemma PutBlock(s: seq<Sector>, blk: nat, n: nat, data: seq<Sector>, b: nat)
    requires |data| == n * PER_BLOCK && (blk + n) * PER_BLOCK <= |s| && (b + 1) * PER_BLOCK <= |s|
    ensures SectorsOf(Put(s, blk * PER_BLOCK, data), b) ==
            if blk <= b < blk + n then data[(b - blk) * PER_BLOCK..(b - blk + 1) * PER_BLOCK] else SectorsOf(s, b)
  {
    var p, lo, hi := blk * PER_BLOCK, b * PER_BLOCK, (b + 1) * PER_BLOCK;
    if blk <= b < blk + n {
      PutInside(s, p, data, lo, hi);
    } else {
      PutOutside(s, p, data, lo, hi);
    }
  }

  lemma PutInside(s: seq<Sector>, p: nat, t: seq<Sector>, lo: nat, hi: nat)
    requires p + |t| <= |s| && p <= lo <= hi <= p + |t|
    ensures Put(s, p, t)[lo..hi] == t[lo - p..hi - p]
  {
  }

  lemma PutOutside(s: seq<Sector>, p: nat, t: seq<Sector>, lo: nat, hi: nat)
    requires p + |t| <= |s| && lo <= hi <= |s| && (hi <= p || p + |t| <= lo)
    ensures Put(s, p, t)[lo..hi] == s[lo..hi]
  {
  }
}
