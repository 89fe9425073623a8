/**
 The bytes of one directory block (struct ext4_dir_entry): variable-length records that tile the
 block, read and written field by field, and what adding and removing a record does to it.
 */
module DirBlock {
  import opened Wrappers

  type byte = x: int | 0 <= x < 256

  const BLOCK: nat := 4096
  const HEADER: nat := 8

  type Buf = b: seq<byte> | |b| == BLOCK witness seq(BLOCK, _ => 0)

  /** A live directory entry. */
  datatype DirEntry = DirEntry(name: seq<byte>, ino: nat)

  // ---------- fields ----------

  function U16(b: Buf, o: nat): nat
    requires o + 2 <= BLOCK
  {
    (b[o] as int) + 0x100 * (b[o + 1] as int)
  }

  function U32(b: Buf, o: nat): nat
    requires o + 4 <= BLOCK
  {
    U16(b, o) + 0x1_0000 * U16(b, o + 2)
  }

  function Put16(b: Buf, o: nat, v: nat): Buf
    requires o + 2 <= BLOCK && v < 0x1_0000
  {
    b[o := v % 0x100][o + 1 := v / 0x100]
  }

  function Put32(b: Buf, o: nat, v: nat): Buf
    requires o + 4 <= BLOCK && v < 0x1_0000_0000
  {
    Put16(Put16(b, o, v % 0x1_0000), o + 2, v / 0x1_0000)
  }

  function PutBytes(b: Buf, o: nat, s: seq<byte>): Buf
    requires o + |s| <= BLOCK
  {
    b[..o] + s + b[o + |s|..]
  }

  /** The header and the name of a record at off (file_type is always 0). */
  function PutRec(b: Buf, off: nat, len: nat, ino: nat, name: seq<byte>): Buf
    requires off + HEADER + |name| <= BLOCK && len < 0x1_0000 && ino < 0x1_0000_0000 && |name| < 0x100
  {
    PutBytes(Put16(Put32(b, off, ino), off + 4, len)[off + 6 := |name|][off + 7 := 0], off + HEADER, name)
  }

  ghost predicate SameOn(b: Buf, c: Buf, lo: nat, hi: nat)
    requires hi <= BLOCK
  {
    forall k :: lo <= k < hi ==> b[k] == c[k]
  }

  lemma PutRecReads(b: Buf, off: nat, len: nat, ino: nat, name: seq<byte>)
    requires off + HEADER + |name| <= BLOCK && len < 0x1_0000 && ino < 0x1_0000_0000 && |name| < 0x100
    ensures var c := PutRec(b, off, len, ino, name);
            && U32(c, off) == ino && U16(c, off + 4) == len && c[off + 6] == |name|
            && c[off + HEADER..off + HEADER + |name|] == name
            && SameOn(b, c, 0, off) && SameOn(b, c, off + HEADER + |name|, BLOCK)
  {
  }

  /** Byte for byte: numbers are little-endian, then come name length, type and name. */
  lemma RecordBytes(b: Buf, off: nat, len: nat, ino: nat, name: seq<byte>)
    requires off + HEADER + |name| <= BLOCK && len < 0x1_0000 && ino < 0x1_0000_0000 && |name| < 0x100
    ensures PutRec(b, off, len, ino, name)[off..off + HEADER + |name|] ==
            [ino % 0x100, ino / 0x100 % 0x100, ino / 0x1_0000 % 0x100, ino / 0x100_0000,
             len % 0x100, len / 0x100, |name|, 0] + name
  {
    hide U16, U32;
    FourBytes(ino);
    var h := Put16(Put32(b, off, ino), off + 4, len);
    assert h[off] == ino % 0x1_0000 % 0x100 && h[off + 1] == ino % 0x1_0000 / 0x100;
    assert h[off + 2] == ino / 0x1_0000 % 0x100 && h[off + 3] == ino / 0x1_0000 / 0x100;
  }

  lemma FourBytes(v: nat)
    ensures v % 0x1_0000 % 0x100 == v % 0x100 && v % 0x1_0000 / 0x100 == v / 0x100 % 0x100
    ensures v / 0x1_0000 / 0x100 == v / 0x100_0000
  {
    TwoDigits(v / 0x1_0000, v % 0x1_0000);
  }

  lemma TwoDigits(h: nat, l: nat)
    requires l < 0x1_0000
    ensures (0x1_0000 * h + l) % 0x100 == l % 0x100 && (0x1_0000 * h + l) / 0x100 % 0x100 == l / 0x100
    ensures (0x1_0000 * h + l) / 0x100_0000 == h / 0x100
  {
    var v := 0x1_0000 * h + l;
    assert v / 0x100 == 0x100 * h + l / 0x100;
  }

  // ---------- records ----------

  /** EXT4_DIR_REC_LEN */
  function RecLen(n: nat): (r: nat)
    ensures HEADER + n <= r < HEADER + n + 4 && r % 4 == 0
  {
    (n + HEADER + 3) / 4 * 4
  }

  function LenAt(b: Buf, off: nat): nat
    requires off + HEADER <= BLOCK
  {
    U16(b, off + 4)
  }

  function InoAt(b: Buf, off: nat): nat
    requires off + HEADER <= BLOCK
  {
    U32(b, off)
  }

  /** The bytes a record needs for itself. */
  function UsedAt(b: Buf, off: nat): nat
    requires off + HEADER <= BLOCK
  {
    if InoAt(b, off) != 0 then RecLen(b[off + 6]) else 0
  }

  /** A record that ends at or before end: of a multiple of four bytes, and, when it is live, with a
      name and long enough for it. */
  predicate RecOk(b: Buf, off: nat, end: nat)
    requires end <= BLOCK
  {
    && off + HEADER <= end && LenAt(b, off) >= HEADER && LenAt(b, off) % 4 == 0 && off + LenAt(b, off) <= end
    && UsedAt(b, off) <= LenAt(b, off) && (InoAt(b, off) != 0 ==> 0 < b[off + 6])
  }

  function NameAt(b: Buf, off: nat): seq<byte>
    requires off + HEADER <= BLOCK && off + UsedAt(b, off) <= BLOCK && InoAt(b, off) != 0
  {
    b[off + HEADER..off + HEADER + b[off + 6]]
  }

  /** Records tile [off, end) exactly. */
  predicate Tiles(b: Buf, off: nat, end: nat)
    requires end <= BLOCK
    decreases end - off
  {
    off == end || (off < end && RecOk(b, off, end) && Tiles(b, off + LenAt(b, off), end))
  }

  /** The live entry of one record. */
  function EntryAt(b: Buf, off: nat): seq<DirEntry>
    requires off + HEADER <= BLOCK && off + UsedAt(b, off) <= BLOCK
  {
    if InoAt(b, off) != 0 then [DirEntry(NameAt(b, off), InoAt(b, off))] else []
  }

  /** The live entries of [off, end), in order. */
  function Entries(b: Buf, off: nat, end: nat): seq<DirEntry>
    requires end <= BLOCK && Tiles(b, off, end)
    decreases end - off
  {
    if off == end then [] else EntryAt(b, off) + Entries(b, off + LenAt(b, off), end)
  }

  lemma FirstRec(b: Buf, off: nat, end: nat)
    requires off < end <= BLOCK && Tiles(b, off, end)
    ensures RecOk(b, off, end) && Tiles(b, off + LenAt(b, off), end)
    ensures Entries(b, off, end) == EntryAt(b, off) + Entries(b, off + LenAt(b, off), end)
  {
  }

  /** A record in front of a tiled region. */
  lemma ConsRec(b: Buf, off: nat, mid: nat, end: nat)
    requires mid <= end <= BLOCK && RecOk(b, off, mid) && Tiles(b, off + LenAt(b, off), end)
    ensures Tiles(b, off, end)
    ensures Entries(b, off, end) == EntryAt(b, off) + Entries(b, off + LenAt(b, off), end)
  {
  }

  lemma {:induction false} TilesAppend(b: Buf, lo: nat, mid: nat, hi: nat)
    requires mid <= hi <= BLOCK && Tiles(b, lo, mid) && Tiles(b, mid, hi)
    ensures Tiles(b, lo, hi) && Entries(b, lo, hi) == Entries(b, lo, mid) + Entries(b, mid, hi)
    decreases mid - lo
  {
    hide RecOk, EntryAt, UsedAt, InoAt, U32;
    if lo < mid {
      FirstRec(b, lo, mid);
      RecGrows(b, lo, mid);
      var next := lo + LenAt(b, lo);
      TilesAppend(b, next, mid, hi);
      ConsRec(b, lo, mid, hi);
      assert EntryAt(b, lo) + (Entries(b, next, mid) + Entries(b, mid, hi)) ==
             (EntryAt(b, lo) + Entries(b, next, mid)) + Entries(b, mid, hi);
    }
  }

  lemma RecGrows(b: Buf, off: nat, end: nat)
    requires end <= BLOCK && RecOk(b, off, end)
    ensures LenAt(b, off) >= HEADER && off + LenAt(b, off) <= end && off + UsedAt(b, off) <= end
  {
  }

  /** Tiling and entries of a region depend on its bytes only. */
  lemma {:induction false} TilesFrame(b: Buf, c: Buf, lo: nat, hi: nat)
    requires hi <= BLOCK && Tiles(b, lo, hi) && SameOn(b, c, lo, hi)
    ensures Tiles(c, lo, hi) && Entries(c, lo, hi) == Entries(b, lo, hi)
    decreases hi - lo
  {
    if lo < hi {
      RecFrame(b, c, lo, hi);
      TilesFrame(b, c, lo + LenAt(b, lo), hi);
    }
  }

  lemma RecFrame(b: Buf, c: Buf, off: nat, end: nat)
    requires end <= BLOCK && RecOk(b, off, end) && SameOn(b, c, off, end)
    ensures RecOk(c, off, end) && LenAt(c, off) == LenAt(b, off) && EntryAt(c, off) == EntryAt(b, off)
  {
    if InoAt(b, off) != 0 {
      assert NameAt(c, off) == NameAt(b, off);
    }
  }

  lemma OneRec(b: Buf, off: nat, end: nat)
    requires end <= BLOCK && RecOk(b, off, end) && off + LenAt(b, off) == end
    ensures Tiles(b, off, end) && Entries(b, off, end) == EntryAt(b, off)
  {
    assert Entries(b, end, end) == [];
  }

  // ---------- adding ----------

  /** Record off has room for need more bytes. */
  predicate HasSlack(b: Buf, off: nat, need: nat)
    requires off + HEADER <= BLOCK
  {
    LenAt(b, off) >= UsedAt(b, off) + need
  }

  /** The block with a new entry in the slack of the record at off. */
  function AddAt(b: Buf, off: nat, name: seq<byte>, ino: nat): Buf
    requires RecOk(b, off, BLOCK) && HasSlack(b, off, RecLen(|name|))
    requires ino < 0x1_0000_0000 && 0 < |name| < 0x100
  {
    var used, len := UsedAt(b, off), LenAt(b, off);
    if used == 0 then PutRec(b, off, len, ino, name)
    else PutRec(Put16(b, off + 4, used), off + used, len - used, ino, name)
  }

  /** The record that had the slack keeps its entry, and the new one follows. */
  lemma AddAtSplits(b: Buf, off: nat, name: seq<byte>, ino: nat, c: Buf, end: nat)
    requires RecOk(b, off, BLOCK) && HasSlack(b, off, RecLen(|name|))
    requires 0 < ino < 0x1_0000_0000 && 0 < |name| < 0x100
    requires c == AddAt(b, off, name, ino) && end == off + LenAt(b, off)
    ensures Tiles(c, off, end) && Entries(c, off, end) == EntryAt(b, off) + [DirEntry(name, ino)]
    ensures SameOn(b, c, 0, off) && SameOn(b, c, end, BLOCK)
  {
    hide PutRec, Tiles, Entries, EntryAt, U32, U16;
    var used, len := UsedAt(b, off), LenAt(b, off);
    if used == 0 {
      PutRecReads(b, off, len, ino, name);
      NewRec(c, off, end, name, ino);
      NotLive(b, off);
    } else {
      var m := Put16(b, off + 4, used);
      AfterUsed(b, off, RecLen(|name|));
      PutRecReads(m, off + used, len - used, ino, name);
      NewRec(c, off + used, end, name, ino);
      Shrunk(b, c, off, used);
      OneRec(c, off, off + used);
      TilesAppend(c, off, off + used, end);
    }
  }

  lemma NotLive(b: Buf, off: nat)
    requires off + HEADER <= BLOCK && UsedAt(b, off) == 0
    ensures EntryAt(b, off) == []
  {
  }

  lemma AfterUsed(b: Buf, off: nat, need: nat)
    requires RecOk(b, off, BLOCK) && UsedAt(b, off) != 0 && HasSlack(b, off, need)
    ensures InoAt(b, off) != 0 && (LenAt(b, off) - UsedAt(b, off)) % 4 == 0 && HEADER <= UsedAt(b, off)
    ensures off + UsedAt(b, off) + need <= off + LenAt(b, off) <= BLOCK
  {
  }

  lemma NewRec(c: Buf, off: nat, end: nat, name: seq<byte>, ino: nat)
    requires off + HEADER + |name| <= BLOCK && 0 < ino && 0 < |name| && off + RecLen(|name|) <= end <= BLOCK
    requires (end - off) % 4 == 0
    requires U32(c, off) == ino && U16(c, off + 4) == end - off && c[off + 6] == |name|
    requires c[off + HEADER..off + HEADER + |name|] == name
    ensures Tiles(c, off, end) && Entries(c, off, end) == [DirEntry(name, ino)]
  {
    OneRec(c, off, end);
  }

  /** A record cut down to what it needs keeps its entry. */
  lemma Shrunk(b: Buf, c: Buf, off: nat, used: nat)
    requires RecOk(b, off, BLOCK) && InoAt(b, off) != 0 && used == UsedAt(b, off)
    requires SameOn(Put16(b, off + 4, used), c, 0, off + used)
    ensures RecOk(c, off, off + used) && LenAt(c, off) == used && EntryAt(c, off) == EntryAt(b, off)
  {
    var m := Put16(b, off + 4, used);
    assert U32(m, off) == U32(b, off) && U16(m, off + 4) == used;
    assert NameAt(c, off) == NameAt(b, off);
  }

  /** Adding puts one entry in, at one place, and keeps the block tiled. */
  lemma AddAtEntries(b: Buf, off: nat, name: seq<byte>, ino: nat)
    requires off < BLOCK && Tiles(b, 0, off) && Tiles(b, off, BLOCK) && HasSlack(b, off, RecLen(|name|))
    requires 0 < ino < 0x1_0000_0000 && 0 < |name| < 0x100
    ensures var c := AddAt(b, off, name, ino);
            && Tiles(b, 0, BLOCK) && Tiles(c, 0, BLOCK)
            && Entries(c, 0, BLOCK) ==
               Entries(b, 0, off) + EntryAt(b, off) + [DirEntry(name, ino)] + Entries(b, off + LenAt(b, off), BLOCK)
            && Entries(b, 0, BLOCK) == Entries(b, 0, off) + EntryAt(b, off) + Entries(b, off + LenAt(b, off), BLOCK)
  {
    hide AddAt, EntryAt, Tiles, Entries, RecOk, LenAt, UsedAt;
    FirstRec(b, off, BLOCK);
    var c, end := AddAt(b, off, name, ino), off + LenAt(b, off);
    AddAtSplits(b, off, name, ino, c, end);
    TilesFrame(b, c, 0, off);
    TilesFrame(b, c, end, BLOCK);
    TilesAppend(c, 0, off, end);
    TilesAppend(c, 0, end, BLOCK);
    TilesAppend(b, 0, off, BLOCK);
  }

  // ---------- when a record has room ----------

  /** The bytes the entries need when packed without gaps. */
  function Size(es: seq<DirEntry>): nat {
    if es == [] then 0 else Size(es[..|es| - 1]) + RecLen(|es[|es| - 1].name|)
  }

  lemma {:induction false} SizeAppend(a: seq<DirEntry>, b: seq<DirEntry>)
    ensures Size(a + b) == Size(a) + Size(b)
  {
    if b == [] {
      assert a + b == a;
    } else {
      assert (a + b)[..|a + b| - 1] == a + b[..|b| - 1];
      SizeAppend(a, b[..|b| - 1]);
    }
  }

  lemma NoSize(es: seq<DirEntry>)
    ensures Size(es[..0]) == 0 && Size([]) == 0
  {
  }

  lemma {:induction false} SizeInBlock(b: Buf, lo: nat, hi: nat)
    requires hi <= BLOCK && Tiles(b, lo, hi)
    ensures lo <= hi && Size(Entries(b, lo, hi)) <= hi - lo
    ensures forall i :: 0 <= i < |Entries(b, lo, hi)| ==> 1 <= |Entries(b, lo, hi)[i].name| <= 255
    decreases hi - lo
  {
    hide RecOk, EntryAt, UsedAt, InoAt, LenAt, Size, RecLen;
    if lo < hi {
      FirstRec(b, lo, hi);
      RecGrows(b, lo, hi);
      var mid := lo + LenAt(b, lo);
      SizeInBlock(b, mid, hi);
      EntrySize(b, lo, hi);
      SizeAppend(EntryAt(b, lo), Entries(b, mid, hi));
    } else {
      NoSize([]);
    }
  }

  lemma EntrySize(b: Buf, off: nat, end: nat)
    requires end <= BLOCK && RecOk(b, off, end)
    ensures Size(EntryAt(b, off)) <= LenAt(b, off)
    ensures forall i :: 0 <= i < |EntryAt(b, off)| ==> 1 <= |EntryAt(b, off)[i].name| <= 255
  {
    if EntryAt(b, off) != [] {
      assert EntryAt(b, off)[..0] == [];
    }
  }

  /** The records of [lo, hi) hold exactly these entries. */
  ghost predicate Lists(c: Buf, lo: nat, hi: nat, es: seq<DirEntry>) {
    hi <= BLOCK && Tiles(c, lo, hi) && Entries(c, lo, hi) == es
  }

  /** A record has room for one more entry exactly when its bytes can hold its own entry and the new one. */
  lemma SlackExactly(b: Buf, off: nat, name: seq<byte>, ino: nat, end: nat)
    requires RecOk(b, off, BLOCK) && 0 < ino < 0x1_0000_0000 && 0 < |name| < 0x100 && end == off + LenAt(b, off)
    ensures HasSlack(b, off, RecLen(|name|)) <==>
            exists c: Buf :: Lists(c, off, end, EntryAt(b, off) + [DirEntry(name, ino)])
  {
    hide Tiles, Entries, EntryAt, Size, RecLen, AddAt;
    var both := EntryAt(b, off) + [DirEntry(name, ino)];
    if HasSlack(b, off, RecLen(|name|)) {
      var c := AddAt(b, off, name, ino);
      AddAtSplits(b, off, name, ino, c, end);
      assert Lists(c, off, end, both);
    }
    if c: Buf :| Lists(c, off, end, both) {
      SizeInBlock(c, off, end);
      SizeAppend(EntryAt(b, off), [DirEntry(name, ino)]);
      OneSize(DirEntry(name, ino));
      OwnSize(b, off);
    }
  }

  lemma OneSize(e: DirEntry)
    ensures Size([e]) == RecLen(|e.name|)
  {
    assert [e][..0] == [];
  }

  lemma OwnSize(b: Buf, off: nat)
    requires RecOk(b, off, BLOCK)
    ensures Size(EntryAt(b, off)) == UsedAt(b, off)
  {
    if InoAt(b, off) != 0 {
      OneSize(EntryAt(b, off)[0]);
    }
  }

  // ---------- removing ----------

  /** The record at p ends where the one at off begins. */
  predicate JustBefore(b: Buf, p: nat, off: nat) {
    off <= BLOCK && p < off && Tiles(b, 0, p) && RecOk(b, p, off) && p + LenAt(b, p) == off
  }

  /** The first record of a block loses its inode; any other is merged into the one before it. */
  function RemoveAt(b: Buf, prev: Option<nat>, off: nat): Buf
    requires RecOk(b, off, BLOCK)
    requires prev.Some? ==> RecOk(b, prev.value, off) && LenAt(b, prev.value) + LenAt(b, off) < 0x1_0000
  {
    match prev
    case None => Put32(b, off, 0)[off + 6 := 0][off + 7 := 0]
    case Some(p) => Put16(b, p + 4, LenAt(b, p) + LenAt(b, off))
  }

  lemma RemoveAtEntries(b: Buf, prev: Option<nat>, off: nat)
    requires off < BLOCK && Tiles(b, 0, off) && Tiles(b, off, BLOCK) && InoAt(b, off) != 0
    requires match prev
             case None => off == 0
             case Some(p) => JustBefore(b, p, off)
    ensures LenAt(b, off) <= BLOCK && (prev.Some? ==> LenAt(b, prev.value) <= BLOCK)
    ensures var c := RemoveAt(b, prev, off);
            && Tiles(b, 0, BLOCK) && Tiles(c, 0, BLOCK)
            && Entries(c, 0, BLOCK) == Entries(b, 0, off) + Entries(b, off + LenAt(b, off), BLOCK)
            && Entries(b, 0, BLOCK) == Entries(b, 0, off) + EntryAt(b, off) + Entries(b, off + LenAt(b, off), BLOCK)
  {
    hide Tiles, Entries, EntryAt, UsedAt, InoAt, U32, RecOk;
    FirstRec(b, off, BLOCK);
    RecGrows(b, off, BLOCK);
    if prev.Some? {
      RecGrows(b, prev.value, off);
    }
    var c, end := RemoveAt(b, prev, off), off + LenAt(b, off);
    TilesAppend(b, 0, off, BLOCK);
    match prev {
      case None =>
        TilesFrame(b, c, end, BLOCK);
        Cleared(b, c);
        OneRec(c, off, end);
        TilesAppend(c, 0, end, BLOCK);
        NoEntries(b);
      case Some(p) =>
        OneRec(b, p, off);
        TilesAppend(b, 0, p, off);
        TilesFrame(b, c, 0, p);
        TilesFrame(b, c, end, BLOCK);
        MergedRec(b, c, p, off);
        OneRec(c, p, end);
        TilesAppend(c, 0, p, end);
        TilesAppend(c, 0, end, BLOCK);
    }
  }

  lemma NoEntries(b: Buf)
    ensures Tiles(b, 0, 0) && Entries(b, 0, 0) == []
  {
  }

  lemma Cleared(b: Buf, c: Buf)
    requires RecOk(b, 0, BLOCK) && c == RemoveAt(b, None, 0)
    ensures RecOk(c, 0, LenAt(b, 0)) && LenAt(c, 0) == LenAt(b, 0) && EntryAt(c, 0) == []
  {
    assert U32(c, 0) == 0 && U16(c, 4) == U16(b, 4);
  }

  lemma MergedRec(b: Buf, c: Buf, p: nat, off: nat)
    requires off <= BLOCK && RecOk(b, p, off) && RecOk(b, off, BLOCK) && p + LenAt(b, p) == off
    requires c == Put16(b, p + 4, LenAt(b, p) + LenAt(b, off))
    ensures RecOk(c, p, off + LenAt(b, off)) && p + LenAt(c, p) == off + LenAt(b, off) && EntryAt(c, p) == EntryAt(b, p)
  {
    assert U32(c, p) == U32(b, p);
    if InoAt(b, p) != 0 {
      assert NameAt(c, p) == NameAt(b, p);
    }
  }
}
