/**
 Linear directories (fs/ext4/dir.c): finding, adding, removing and listing entries over the blocks of
 a directory.  The directory is its entries in order of blocks and records.
 */
module Directory {
  import opened Wrappers
  import opened DirBlock

  const MAX_NAME: nat := 255

  // ---------- a directory as a list of entries ----------

  ghost predicate Tiled(b: Buf) {
    Tiles(b, 0, BLOCK)
  }

  ghost function BlockEntries(b: Buf): seq<DirEntry>
    requires Tiled(b)
  {
    Entries(b, 0, BLOCK)
  }

  ghost predicate AllTiled(blocks: seq<Buf>) {
    forall i :: 0 <= i < |blocks| ==> Tiled(blocks[i])
  }

  ghost function All(blocks: seq<Buf>): seq<DirEntry>
    requires AllTiled(blocks)
  {
    if blocks == [] then [] else All(blocks[..|blocks| - 1]) + BlockEntries(blocks[|blocks| - 1])
  }

  /** Where a block's entries lie among all of them. */
  lemma {:induction false} AllAt(blocks: seq<Buf>, k: nat)
    requires AllTiled(blocks) && k < |blocks|
    ensures AllTiled(blocks[..k]) && AllTiled(blocks[k + 1..])
    ensures All(blocks) == All(blocks[..k]) + BlockEntries(blocks[k]) + All(blocks[k + 1..])
  {
    hide Tiled, BlockEntries;
    var n := |blocks| - 1;
    if k == n {
      assert blocks[k + 1..] == [];
    } else {
      AllAt(blocks[..n], k);
      assert blocks[..n][..k] == blocks[..k];
      assert blocks[k + 1..][..n - k - 1] == blocks[..n][k + 1..];
      assert All(blocks[k + 1..]) == All(blocks[..n][k + 1..]) + BlockEntries(blocks[n]);
    }
  }

  /** Entries that come before all others with name are not called name. */
  ghost predicate Absent(es: seq<DirEntry>, name: seq<byte>) {
    forall i :: 0 <= i < |es| ==> es[i].name != name
  }

  ghost predicate Unique(es: seq<DirEntry>) {
    forall i, j :: 0 <= i < j < |es| ==> es[i].name != es[j].name
  }

  /** es with e put in at k. */
  ghost predicate PutIn(es: seq<DirEntry>, es': seq<DirEntry>, k: nat, e: DirEntry) {
    k <= |es| && es' == es[..k] + [e] + es[k..]
  }

  /** es without its first entry called name. */
  ghost predicate TakenOut(es: seq<DirEntry>, es': seq<DirEntry>, k: nat, name: seq<byte>) {
    k < |es| && es[k].name == name && Absent(es[..k], name) && es' == es[..k] + es[k + 1..]
  }

  lemma StillUnique(es: seq<DirEntry>, es': seq<DirEntry>, k: nat, e: DirEntry)
    requires PutIn(es, es', k, e) && Absent(es, e.name)
    ensures Unique(es) ==> Unique(es')
  {
    if Unique(es) {
      forall i, j | 0 <= i < j < |es'|
        ensures es'[i].name != es'[j].name
      {
        assert i != k ==> es'[i] == es[if i < k then i else i - 1];
        assert j != k ==> es'[j] == es[if j < k then j else j - 1];
      }
    }
  }

  /** What find reports, and how add and remove change it. */
  lemma AddThenFind(es: seq<DirEntry>, es': seq<DirEntry>, k: nat, e: DirEntry)
    requires PutIn(es, es', k, e) && Absent(es, e.name)
    ensures Unique(es) ==> Unique(es')
    ensures forall name :: !Absent(es', name) <==> !Absent(es, name) || name == e.name
    ensures multiset(es') == multiset(es) + multiset{e}
  {
    hide Unique;
    assert es == es[..k] + es[k..];
    StillUnique(es, es', k, e);
    forall name
      ensures !Absent(es', name) <==> !Absent(es, name) || name == e.name
    {
      if i :| 0 <= i < |es| && es[i].name == name {
        assert es'[if i < k then i else i + 1].name == name;
      }
      if name == e.name {
        assert es'[k].name == name;
      }
    }
  }

  lemma RemoveThenFind(es: seq<DirEntry>, es': seq<DirEntry>, k: nat, name: seq<byte>)
    requires TakenOut(es, es', k, name)
    ensures multiset(es) == multiset(es') + multiset{es[k]}
    ensures Unique(es) ==> Unique(es') && Absent(es', name)
  {
    assert es == es[..k] + [es[k]] + es[k + 1..];
  }

  // ---------- one block ----------

  /** A record found by a scan: at off, called name, and the first such. */
  ghost predicate FirstIn(b: Buf, name: seq<byte>, off: nat) {
    && off < BLOCK && Tiles(b, 0, off) && Tiles(b, off, BLOCK) && Absent(Entries(b, 0, off), name)
    && InoAt(b, off) != 0 && NameAt(b, off) == name
  }

  /** The scan of one block for a name. */
  method ScanBlock(b: Buf, name: seq<byte>) returns (at: Option<nat>, prev: Option<nat>)
    requires Tiled(b)
    ensures at.None? ==> Absent(BlockEntries(b), name)
    ensures at.Some? ==>
      && FirstIn(b, name, at.value)
      && match prev
         case None => at.value == 0
         case Some(p) => JustBefore(b, p, at.value)
  {
    hide RecOk, EntryAt, LenAt, InoAt, UsedAt, Entries, Tiles;
    NoEntries(b);
    var off := 0;
    prev := None;
    while off < BLOCK
      invariant off <= BLOCK && Tiles(b, 0, off) && Tiles(b, off, BLOCK) && Absent(Entries(b, 0, off), name)
      invariant match prev
                case None => off == 0
                case Some(p) => JustBefore(b, p, off)
      decreases BLOCK - off
    {
      RecBounds(b, off);
      FirstRec(b, off, BLOCK);
      if InoAt(b, off) != 0 && b[off + HEADER..off + HEADER + b[off + 6]] == name {
        return Some(off), prev;
      }
      Passed(b, off, name);
      prev := Some(off);
      off := off + LenAt(b, off);
    }
    at := None;
  }

  lemma RecBounds(b: Buf, off: nat)
    requires off < BLOCK && Tiles(b, off, BLOCK)
    ensures off + HEADER <= BLOCK && HEADER <= LenAt(b, off) && off + LenAt(b, off) <= BLOCK
    ensures InoAt(b, off) != 0 ==> off + HEADER + b[off + 6] <= off + UsedAt(b, off) <= off + LenAt(b, off)
    ensures off + UsedAt(b, off) <= BLOCK && RecOk(b, off, off + LenAt(b, off))
    ensures Tiles(b, off + LenAt(b, off), BLOCK)
  {
  }

  /** A record that does not match is left behind. */
  lemma Passed(b: Buf, off: nat, name: seq<byte>)
    requires off < BLOCK && Tiles(b, 0, off) && Tiles(b, off, BLOCK) && Absent(Entries(b, 0, off), name)
    requires off + HEADER <= BLOCK && off + UsedAt(b, off) <= BLOCK
    requires InoAt(b, off) != 0 ==> NameAt(b, off) != name
    ensures Tiles(b, 0, off + LenAt(b, off)) && Tiles(b, off + LenAt(b, off), BLOCK)
    ensures Entries(b, 0, off + LenAt(b, off)) == Entries(b, 0, off) + EntryAt(b, off)
    ensures Absent(Entries(b, 0, off + LenAt(b, off)), name)
  {
    hide Entries;
    RecBounds(b, off);
    OneRec(b, off, off + LenAt(b, off));
    TilesAppend(b, 0, off, off + LenAt(b, off));
  }

  /** The in-block scan for room; it stops at the first record with enough slack. */
  method ScanRoom(b: Buf, need: nat) returns (at: Option<nat>)
    requires Tiled(b) && HEADER <= need
    ensures at.Some? ==>
      && at.value < BLOCK && Tiles(b, 0, at.value) && Tiles(b, at.value, BLOCK)
      && HasSlack(b, at.value, need) && NoRoom(b, 0, at.value, need)
    ensures at.None? ==> NoRoom(b, 0, BLOCK, need)
  {
    hide RecOk, EntryAt, LenAt, InoAt, UsedAt, Entries, Tiles, HasSlack, NoRoom;
    NoEntries(b);
    NoRoomIn(b, 0, need);
    var off := 0;
    while off + need <= BLOCK
      invariant off <= BLOCK && Tiles(b, 0, off) && Tiles(b, off, BLOCK)
      invariant NoRoom(b, 0, off, need)
      decreases BLOCK - off
    {
      RecBounds(b, off);
      FirstRec(b, off, BLOCK);
      if HasSlack(b, off, need) {
        return Some(off);
      }
      OneRec(b, off, off + LenAt(b, off));
      TilesAppend(b, 0, off, off + LenAt(b, off));
      NoRoomIn(b, off, need);
      NoRoomJoin(b, 0, off, off + LenAt(b, off), need);
      off := off + LenAt(b, off);
    }
    RestTooShort(b, off, need);
    NoRoomJoin(b, 0, off, BLOCK, need);
    at := None;
  }

  /** No record of [off, end) has slack for need bytes. */
  ghost predicate NoRoom(b: Buf, off: nat, end: nat, need: nat)
    requires end <= BLOCK && Tiles(b, off, end)
    decreases end - off
  {
    off == end || (!HasSlack(b, off, need) && NoRoom(b, off + LenAt(b, off), end, need))
  }

  lemma NoRoomIn(b: Buf, off: nat, need: nat)
    requires off < BLOCK && Tiles(b, off, BLOCK)
    ensures Tiles(b, off, off) && NoRoom(b, off, off, need)
    ensures Tiles(b, off, off + LenAt(b, off)) && off + LenAt(b, off) <= BLOCK
    ensures !HasSlack(b, off, need) ==> NoRoom(b, off, off + LenAt(b, off), need)
  {
  }

  lemma {:induction false} NoRoomJoin(b: Buf, lo: nat, mid: nat, hi: nat, need: nat)
    requires mid <= hi <= BLOCK && Tiles(b, lo, mid) && Tiles(b, mid, hi) && Tiles(b, lo, hi)
    requires NoRoom(b, lo, mid, need) && NoRoom(b, mid, hi, need)
    ensures NoRoom(b, lo, hi, need)
    decreases mid - lo
  {
    hide RecOk, UsedAt;
    if lo < mid {
      FirstRec(b, lo, mid);
      RecGrows(b, lo, mid);
      FirstRec(b, lo, hi);
      NoRoomJoin(b, lo + LenAt(b, lo), mid, hi, need);
    }
  }

  lemma {:induction false} RestTooShort(b: Buf, off: nat, need: nat)
    requires Tiles(b, off, BLOCK) && off + need > BLOCK
    ensures NoRoom(b, off, BLOCK, need)
    decreases BLOCK - off
  {
    if off < BLOCK {
      RestTooShort(b, off + LenAt(b, off), need);
    }
  }

  // ---------- writing in place ----------

  method Store16(buf: array<byte>, o: nat, v: nat)
    requires buf.Length == BLOCK && o + 2 <= BLOCK && v < 0x1_0000
    modifies buf
    ensures buf[..] == Put16(old(buf[..]), o, v)
  {
    buf[o], buf[o + 1] := v % 0x100, v / 0x100;
  }

  method Store32(buf: array<byte>, o: nat, v: nat)
    requires buf.Length == BLOCK && o + 4 <= BLOCK && v < 0x1_0000_0000
    modifies buf
    ensures buf[..] == Put32(old(buf[..]), o, v)
  {
    Store16(buf, o, v % 0x1_0000);
    Store16(buf, o + 2, v / 0x1_0000);
  }

  /** memcpy of a name. */
  method StoreBytes(buf: array<byte>, o: nat, s: seq<byte>)
    requires buf.Length == BLOCK && o + |s| <= BLOCK
    modifies buf
    ensures buf[..] == PutBytes(old(buf[..]), o, s)
  {
    ghost var b: Buf := buf[..];
    var i := 0;
    while i < |s|
      invariant 0 <= i <= |s|
      invariant buf[..] == PutBytes(b, o, s[..i])
    {
      buf[o + i] := s[i];
      assert buf[..] == PutBytes(b, o, s[..i + 1]);
      i := i + 1;
    }
    assert s[..i] == s;
  }

  method StoreRec(buf: array<byte>, off: nat, len: nat, ino: nat, name: seq<byte>)
    requires buf.Length == BLOCK && off + HEADER + |name| <= BLOCK
    requires len < 0x1_0000 && ino < 0x1_0000_0000 && |name| < 0x100
    modifies buf
    ensures buf[..] == PutRec(old(buf[..]), off, len, ino, name)
  {
    Store32(buf, off, ino);
    Store16(buf, off + 4, len);
    buf[off + 6] := |name|;
    buf[off + 7] := 0;
    StoreBytes(buf, off + HEADER, name);
  }

  method LoadBlock(b: Buf) returns (buf: array<byte>)
    ensures fresh(buf) && buf.Length == BLOCK && buf[..] == b
  {
    buf := new byte[BLOCK](i requires 0 <= i < BLOCK => b[i]);
  }

  /** The changes of ext4_add_entry to one block. */
  method InsertInBlock(b: Buf, off: nat, name: seq<byte>, ino: nat) returns (c: Buf)
    requires RecOk(b, off, BLOCK) && HasSlack(b, off, RecLen(|name|))
    requires ino < 0x1_0000_0000 && 0 < |name| <= MAX_NAME
    ensures c == AddAt(b, off, name, ino)
  {
    hide PutRec;
    var buf := LoadBlock(b);
    var used, len := UsedAt(b, off), LenAt(b, off);
    if used == 0 {
      StoreRec(buf, off, len, ino, name);
    } else {
      Store16(buf, off + 4, used);
      StoreRec(buf, off + used, len - used, ino, name);
    }
    c := buf[..];
  }

  /** The changes of ext4_remove_entry to one block. */
  method EraseInBlock(b: Buf, prev: Option<nat>, off: nat) returns (c: Buf)
    requires RecOk(b, off, BLOCK)
    requires prev.Some? ==> off <= BLOCK && RecOk(b, prev.value, off)
    ensures c == RemoveAt(b, prev, off)
  {
    var buf := LoadBlock(b);
    match prev {
      case None =>
        Store32(buf, off, 0);
        buf[off + 6] := 0;
        buf[off + 7] := 0;
      case Some(p) =>
        Store16(buf, p + 4, LenAt(b, p) + LenAt(b, off));
    }
    c := buf[..];
  }

  // ---------- the whole directory ----------

  lemma AbsentSum(a: seq<DirEntry>, b: seq<DirEntry>, name: seq<byte>)
    ensures Absent(a + b, name) <==> Absent(a, name) && Absent(b, name)
  {
    if Absent(a + b, name) {
      forall i | 0 <= i < |a|
        ensures a[i].name != name
      {
        assert a[i] == (a + b)[i];
      }
      forall i | 0 <= i < |b|
        ensures b[i].name != name
      {
        assert b[i] == (a + b)[|a| + i];
      }
    }
  }

  /** es[k] is the first entry called name. */
  ghost predicate FirstAt(es: seq<DirEntry>, k: nat, name: seq<byte>, ino: nat) {
    k < |es| && es[k] == DirEntry(name, ino) && Absent(es[..k], name)
  }

  ghost predicate Has(es: seq<DirEntry>, name: seq<byte>, ino: nat) {
    exists k :: 0 <= k < |es| && es[k] == DirEntry(name, ino)
  }

  /** With unique names there is one inode number to be found for a name, wherever one looks. */
  lemma OneAnswer(es: seq<DirEntry>, name: seq<byte>, ino: nat, ino': nat)
    requires Unique(es) && Has(es, name, ino) && Has(es, name, ino')
    ensures ino == ino'
  {
  }

  /** The place in the whole list of a match in block k, the first of its block. */
  lemma MatchAt(blocks: seq<Buf>, k: nat, name: seq<byte>, off: nat)
    requires AllTiled(blocks) && k < |blocks| && FirstIn(blocks[k], name, off)
    ensures Has(All(blocks), name, InoAt(blocks[k], off))
    ensures Tiled(blocks[k])
    ensures FirstAt(BlockEntries(blocks[k]), |Entries(blocks[k], 0, off)|, name, InoAt(blocks[k], off))
    ensures AllTiled(blocks[..k]) && (Absent(All(blocks[..k]), name) ==>
              FirstAt(All(blocks), |All(blocks[..k])| + |Entries(blocks[k], 0, off)|, name, InoAt(blocks[k], off)))
  {
    hide Tiled, BlockEntries, All, Tiles, Entries, RecOk;
    var b := blocks[k];
    AllAt(blocks, k);
    SplitBlock(b, off);
    var before, here := All(blocks[..k]), Entries(b, 0, off);
    var i := |before| + |here|;
    assert All(blocks)[i] == EntryAt(b, off)[0];
    assert All(blocks)[..i] == before + here;
    assert BlockEntries(b)[|here|] == EntryAt(b, off)[0] && BlockEntries(b)[..|here|] == here;
    AbsentSum(before, here, name);
  }

  lemma SplitBlock(b: Buf, off: nat)
    requires off < BLOCK && Tiles(b, 0, off) && Tiles(b, off, BLOCK)
    ensures Tiled(b) && RecOk(b, off, BLOCK) && Tiles(b, off + LenAt(b, off), BLOCK)
    ensures BlockEntries(b) == Entries(b, 0, off) + EntryAt(b, off) + Entries(b, off + LenAt(b, off), BLOCK)
  {
    TilesAppend(b, 0, off, BLOCK);
  }

  lemma {:induction false} AbsentAll(blocks: seq<Buf>, name: seq<byte>)
    requires AllTiled(blocks) && forall i :: 0 <= i < |blocks| ==> Absent(BlockEntries(blocks[i]), name)
    ensures Absent(All(blocks), name)
  {
    if blocks != [] {
      AbsentAll(blocks[..|blocks| - 1], name);
      AbsentSum(All(blocks[..|blocks| - 1]), BlockEntries(blocks[|blocks| - 1]), name);
    }
  }

  lemma FirstNotAbsent(es: seq<DirEntry>, k: nat, name: seq<byte>, ino: nat)
    requires FirstAt(es, k, name, ino)
    ensures !Absent(es, name)
  {
  }

  lemma HasNotAbsent(es: seq<DirEntry>, name: seq<byte>, ino: nat)
    requires Has(es, name, ino)
    ensures !Absent(es, name)
  {
  }

  /** Replacing block k when an entry was put into it. */
  lemma BlockPutIn(blocks: seq<Buf>, k: nat, c: Buf, off: nat, name: seq<byte>, ino: nat) returns (i: nat)
    requires AllTiled(blocks) && k < |blocks| && off < BLOCK
    requires Tiles(blocks[k], 0, off) && Tiles(blocks[k], off, BLOCK) && HasSlack(blocks[k], off, RecLen(|name|))
    requires 0 < ino < 0x1_0000_0000 && 0 < |name| <= MAX_NAME && c == AddAt(blocks[k], off, name, ino)
    ensures AllTiled(blocks[k := c])
    ensures PutIn(All(blocks), All(blocks[k := c]), i, DirEntry(name, ino))
  {
    hide All, BlockEntries;
    var b := blocks[k];
    var e := DirEntry(name, ino);
    var pre, rest := PutPlace(b, c, off, name, ino);
    Replaced(blocks, k, c);
    var a, z := All(blocks[..k]), All(blocks[k + 1..]);
    ThreeParts(a, pre, rest, z, [e], BlockEntries(b), BlockEntries(c));
    i := |a| + |pre|;
  }

  lemma PutPlace(b: Buf, c: Buf, off: nat, name: seq<byte>, ino: nat) returns (pre: seq<DirEntry>, rest: seq<DirEntry>)
    requires off < BLOCK && Tiles(b, 0, off) && Tiles(b, off, BLOCK) && HasSlack(b, off, RecLen(|name|))
    requires 0 < ino < 0x1_0000_0000 && 0 < |name| <= MAX_NAME && c == AddAt(b, off, name, ino)
    ensures Tiled(b) && Tiled(c)
    ensures BlockEntries(b) == pre + rest && BlockEntries(c) == pre + [DirEntry(name, ino)] + rest
  {
    hide AddAt;
    AddAtEntries(b, off, name, ino);
    pre, rest := Entries(b, 0, off) + EntryAt(b, off), Entries(b, off + LenAt(b, off), BLOCK);
  }

  /** The listing around a replaced block. */
  lemma Replaced(blocks: seq<Buf>, k: nat, c: Buf)
    requires AllTiled(blocks) && k < |blocks| && Tiled(c)
    ensures AllTiled(blocks[k := c]) && AllTiled(blocks[..k]) && AllTiled(blocks[k + 1..])
    ensures All(blocks) == All(blocks[..k]) + BlockEntries(blocks[k]) + All(blocks[k + 1..])
    ensures All(blocks[k := c]) == All(blocks[..k]) + BlockEntries(c) + All(blocks[k + 1..])
  {
    hide Tiled, BlockEntries, All;
    var blocks' := blocks[k := c];
    AllAt(blocks, k);
    AllAt(blocks', k);
    assert blocks'[..k] == blocks[..k] && blocks'[k + 1..] == blocks[k + 1..];
  }

  lemma ThreeParts(a: seq<DirEntry>, pre: seq<DirEntry>, rest: seq<DirEntry>, z: seq<DirEntry>, e: seq<DirEntry>,
                   b: seq<DirEntry>, c: seq<DirEntry>)
    requires b == pre + rest && c == pre + e + rest
    ensures (a + b + z)[..|a| + |pre|] == a + pre && (a + b + z)[|a| + |pre|..] == rest + z
    ensures a + c + z == (a + pre) + e + (rest + z)
  {
  }

  /** Replacing block k when its first match was erased. */
  lemma BlockTakenOut(blocks: seq<Buf>, k: nat, c: Buf, prev: Option<nat>, off: nat, name: seq<byte>) returns (i: nat)
    requires AllTiled(blocks) && k < |blocks| && FirstIn(blocks[k], name, off)
    requires AllTiled(blocks[..k]) && Absent(All(blocks[..k]), name)
    requires match prev
             case None => off == 0
             case Some(p) => JustBefore(blocks[k], p, off)
    requires RecOk(blocks[k], off, BLOCK) && c == RemoveAt(blocks[k], prev, off)
    ensures AllTiled(blocks[k := c])
    ensures TakenOut(All(blocks), All(blocks[k := c]), i, name)
  {
    hide All, BlockEntries, RemoveAt, Tiles;
    var b := blocks[k];
    var pre, rest := TakePlace(b, c, prev, off, name);
    Replaced(blocks, k, c);
    var a, z := All(blocks[..k]), All(blocks[k + 1..]);
    OneOfThree(a, pre, EntryAt(b, off), rest, z, BlockEntries(b), BlockEntries(c));
    AbsentSum(a, pre, name);
    assert All(blocks)[|a| + |pre|] == EntryAt(b, off)[0];
    i := |a| + |pre|;
  }

  lemma TakePlace(b: Buf, c: Buf, prev: Option<nat>, off: nat, name: seq<byte>) returns (pre: seq<DirEntry>,
      rest: seq<DirEntry>)
    requires FirstIn(b, name, off) && RecOk(b, off, BLOCK)
    requires match prev
             case None => off == 0
             case Some(p) => JustBefore(b, p, off)
    requires c == RemoveAt(b, prev, off)
    ensures Tiled(b) && Tiled(c) && Absent(pre, name) && |EntryAt(b, off)| == 1 && EntryAt(b, off)[0].name == name
    ensures BlockEntries(b) == pre + EntryAt(b, off) + rest && BlockEntries(c) == pre + rest
  {
    hide RemoveAt;
    RemoveAtEntries(b, prev, off);
    pre, rest := Entries(b, 0, off), Entries(b, off + LenAt(b, off), BLOCK);
  }

  lemma OneOfThree(a: seq<DirEntry>, pre: seq<DirEntry>, e: seq<DirEntry>, rest: seq<DirEntry>, z: seq<DirEntry>,
                   b: seq<DirEntry>, c: seq<DirEntry>)
    requires b == pre + e + rest && c == pre + rest
    ensures var k := |a| + |pre|;
            && |e| == 1 ==> (a + b + z)[..k] + (a + b + z)[k + 1..] == a + c + z && (a + b + z)[..k] == a + pre
  {
    if |e| == 1 {
      var s, k := a + b + z, |a| + |pre|;
      assert s == (a + pre) + (e + (rest + z));
      assert s[k + 1..] == rest + z;
      assert a + c + z == (a + pre) + (rest + z);
    }
  }

  // ---------- what stays as it was, byte for byte ----------

  /** The blocks differ in the bytes [lo, hi) of block k only. */
  ghost predicate OnlyWithin(before: seq<Buf>, after: seq<Buf>, k: nat, lo: nat, hi: nat) {
    && k < |before| == |after| && lo <= hi <= BLOCK
    && (forall j :: 0 <= j < |before| && j != k ==> after[j] == before[j])
    && SameOn(before[k], after[k], 0, lo) && SameOn(before[k], after[k], hi, BLOCK)
  }

  /** Entry e has gone into the record at off of block k, behind the entry that was there. */
  ghost predicate AddedTo(before: seq<Buf>, after: seq<Buf>, k: nat, off: nat, e: DirEntry) {
    && k < |before| && off < BLOCK && Tiles(before[k], 0, off) && Tiles(before[k], off, BLOCK)
    && RecOk(before[k], off, BLOCK)
    && var end := off + LenAt(before[k], off);
    && OnlyWithin(before, after, k, off, end) && Tiles(after[k], off, end)
    && Entries(after[k], off, end) == EntryAt(before[k], off) + [e]
  }

  lemma AddStaysWithin(blocks: seq<Buf>, k: nat, c: Buf, off: nat, name: seq<byte>, ino: nat)
    requires k < |blocks| && off < BLOCK && Tiles(blocks[k], 0, off) && Tiles(blocks[k], off, BLOCK)
    requires RecOk(blocks[k], off, BLOCK) && HasSlack(blocks[k], off, RecLen(|name|))
    requires 0 < ino < 0x1_0000_0000 && 0 < |name| <= MAX_NAME && c == AddAt(blocks[k], off, name, ino)
    ensures AddedTo(blocks, blocks[k := c], k, off, DirEntry(name, ino))
  {
    hide AddAt, Tiles, Entries, EntryAt;
    AddAtSplits(blocks[k], off, name, ino, c, off + LenAt(blocks[k], off));
  }

  /** Removing touches the header of one record: the removed one, or the one before it. */
  lemma RemoveStaysWithin(blocks: seq<Buf>, k: nat, c: Buf, prev: Option<nat>, off: nat)
    requires k < |blocks| && RecOk(blocks[k], off, BLOCK)
    requires match prev
             case None => true
             case Some(p) => JustBefore(blocks[k], p, off)
    requires c == RemoveAt(blocks[k], prev, off)
    ensures var q := if prev.Some? then prev.value else off;
            q + HEADER <= BLOCK && OnlyWithin(blocks, blocks[k := c], k, q, q + HEADER)
  {
    hide Tiles;
  }

  class Dir {
    var blocks: seq<Buf>
    /** The scan for room gives up at this block: 12 for a directory on extents, 12 + 1024 otherwise. */
    const maxBlocks: nat

    ghost predicate Valid()
      reads this
    {
      AllTiled(blocks)
    }

    ghost function Listing(): seq<DirEntry>
      requires Valid()
      reads this
    {
      All(blocks)
    }

    /** The scan of all blocks for a name. */
    method Scan(name: seq<byte>) returns (k: nat, at: Option<nat>, prev: Option<nat>)
      requires Valid()
      ensures at.None? ==> Absent(Listing(), name)
      ensures at.Some? ==>
        && k < |blocks| && FirstIn(blocks[k], name, at.value)
        && AllTiled(blocks[..k]) && Absent(All(blocks[..k]), name)
        && match prev
           case None => at.value == 0
           case Some(p) => JustBefore(blocks[k], p, at.value)
    {
      hide Tiled, BlockEntries, All, FirstIn, JustBefore;
      k := 0;
      while k < |blocks|
        invariant k <= |blocks|
        invariant forall i :: 0 <= i < k ==> Absent(BlockEntries(blocks[i]), name)
      {
        at, prev := ScanBlock(blocks[k], name);
        if at.Some? {
          AbsentAll(blocks[..k], name);
          return;
        }
        k := k + 1;
      }
      AbsentAll(blocks, name);
      at, prev := None, None;
    }

    /** ext4_find_entry.  leaf is the block the hash index of an indexed directory names, None when there
        is no index or it could not be read; whatever it says, a miss there leads to the scan of all blocks. */
    method Find(name: seq<byte>, leaf: Option<nat>) returns (ino: Option<nat>)
      requires Valid()
      ensures ino.Some? <==> 0 < |name| <= MAX_NAME && !Absent(Listing(), name)
      ensures ino.Some? ==> Has(Listing(), name, ino.value)
      ensures ino.Some? ==>
        if leaf.Some? && leaf.value < |blocks| && !Absent(BlockEntries(blocks[leaf.value]), name)
        then exists k: nat :: FirstAt(BlockEntries(blocks[leaf.value]), k, name, ino.value)
        else exists k: nat :: FirstAt(Listing(), k, name, ino.value)
    {
      hide Tiled, All, BlockEntries, Absent, FirstAt, Has, JustBefore;
      if |name| == 0 || |name| > MAX_NAME {
        return None;
      }
      if leaf.Some? && leaf.value < |blocks| {
        var at, prev := ScanBlock(blocks[leaf.value], name);
        if at.Some? {
          MatchAt(blocks, leaf.value, name, at.value);
          ino := Some(InoAt(blocks[leaf.value], at.value));
          HasNotAbsent(All(blocks), name, ino.value);
          FirstNotAbsent(BlockEntries(blocks[leaf.value]), |Entries(blocks[leaf.value], 0, at.value)|, name, ino.value);
          return;
        }
      }
      var k, at, prev := Scan(name);
      if at.None? {
        return None;
      }
      MatchAt(blocks, k, name, at.value);
      ino := Some(InoAt(blocks[k], at.value));
      HasNotAbsent(All(blocks), name, ino.value);
    }

    /** The linear part of ext4_add_entry.  canGrow tells whether a block can be had for the directory. */
    method Add(name: seq<byte>, ino: nat, canGrow: bool) returns (ok: bool, ghost i: nat, ghost k: nat, ghost off: nat)
      requires Valid() && 0 < ino < 0x1_0000_0000
      modifies this`blocks
      ensures Valid()
      ensures ok ==> PutIn(old(Listing()), Listing(), i, DirEntry(name, ino))
      ensures ok && k < |old(blocks)| ==> AddedTo(old(blocks), blocks, k, off, DirEntry(name, ino))
      ensures ok && k >= |old(blocks)| ==> |blocks| == |old(blocks)| + 1 && old(blocks) <= blocks
      ensures ok ==> forall j :: 0 <= j < k && j < |old(blocks)| ==>
        Tiled(old(blocks)[j]) && NoRoom(old(blocks)[j], 0, BLOCK, RecLen(|name|))
      ensures ok && k < |old(blocks)| ==> NoRoom(old(blocks)[k], 0, off, RecLen(|name|))
      ensures ok ==> 0 < |name| <= MAX_NAME && k < maxBlocks
      ensures ok && k >= |old(blocks)| ==> canGrow && k == |old(blocks)|
      ensures !ok ==> blocks == old(blocks)
      ensures !ok && 0 < |name| <= MAX_NAME ==>
        && (|blocks| >= maxBlocks || !canGrow)
        && forall i :: 0 <= i < |blocks| && i < maxBlocks ==>
          Tiled(blocks[i]) && NoRoom(blocks[i], 0, BLOCK, RecLen(|name|))
    {
      hide All, BlockEntries, NoRoom, PutIn, AddAt, AddedTo, Entries;
      i, k, off := 0, 0, 0;
      if |name| == 0 || |name| > MAX_NAME {
        return false, i, k, off;
      }
      var need := RecLen(|name|);
      var b := 0;
      while b < maxBlocks && b < |blocks|
        invariant b <= |blocks| && blocks == old(blocks)
        invariant forall i :: 0 <= i < b ==> NoRoom(blocks[i], 0, BLOCK, need)
      {
        var at := ScanRoom(blocks[b], need);
        if at.Some? {
          FirstRec(blocks[b], at.value, BLOCK);
          var c := InsertInBlock(blocks[b], at.value, name, ino);
          i := BlockPutIn(blocks, b, c, at.value, name, ino);
          AddStaysWithin(blocks, b, c, at.value, name, ino);
          blocks := blocks[b := c];
          return true, i, b, at.value;
        }
        b := b + 1;
      }
      k := b;
      if b >= maxBlocks || !canGrow {
        return false, i, k, off;
      }
      i := Grow(name, ino);
      ok := true;
    }

    /** A fresh block is one free record, and the entry goes there. */
    method Grow(name: seq<byte>, ino: nat) returns (ghost i: nat)
      requires Valid() && 0 < ino < 0x1_0000_0000 && 0 < |name| <= MAX_NAME
      modifies this`blocks
      ensures Valid()
      ensures PutIn(old(Listing()), Listing(), i, DirEntry(name, ino))
      ensures |blocks| == |old(blocks)| + 1 && old(blocks) <= blocks
    {
      hide All, BlockEntries, PutIn, AddAt;
      var buf := new byte[BLOCK](_ => 0);
      Store16(buf, 4, BLOCK);
      var b: Buf := buf[..];
      EmptyBlock(b);
      var c := InsertInBlock(b, 0, name, ino);
      Grown(blocks, b);
      i := BlockPutIn(blocks + [b], |blocks|, c, 0, name, ino);
      assert (blocks + [b])[|blocks| := c] == blocks + [c];
      blocks := blocks + [c];
    }

    /** ext4_remove_entry */
    method Remove(name: seq<byte>) returns (ok: bool, ghost i: nat, ghost k: nat, ghost off: nat)
      requires Valid()
      modifies this`blocks
      ensures Valid()
      ensures ok <==> name != [] && !Absent(old(Listing()), name)
      ensures ok ==> TakenOut(old(Listing()), Listing(), i, name)
      ensures ok ==> OnlyWithin(old(blocks), blocks, k, off, off + HEADER) && Tiles(old(blocks)[k], 0, off)
      ensures !ok ==> blocks == old(blocks)
    {
      hide Tiled, All, BlockEntries, Absent, TakenOut, RemoveAt, Has, OnlyWithin;
      i, k, off := 0, 0, 0;
      if name == [] {
        return false, i, k, off;
      }
      var b, at, prev := Scan(name);
      if at.None? {
        return false, i, k, off;
      }
      FirstRec(blocks[b], at.value, BLOCK);
      MatchAt(blocks, b, name, at.value);
      HasNotAbsent(All(blocks), name, InoAt(blocks[b], at.value));
      var c := EraseInBlock(blocks[b], prev, at.value);
      i := BlockTakenOut(blocks, b, c, prev, at.value, name);
      RemoveStaysWithin(blocks, b, c, prev, at.value);
      blocks := blocks[b := c];
      ok, k, off := true, b, if prev.Some? then prev.value else at.value;
    }

    /** ext4_dir_foreach with a callback that never stops. */
    method List() returns (out: seq<DirEntry>)
      requires Valid()
      ensures out == Listing()
    {
      hide Tiled, BlockEntries, Tiles, Entries, RecOk;
      out := [];
      var k := 0;
      while k < |blocks|
        invariant k <= |blocks|
        invariant AllTiled(blocks[..k]) && out == All(blocks[..k])
      {
        var more := ListBlock(blocks[k]);
        assert blocks[..k + 1][..k] == blocks[..k];
        out := out + more;
        k := k + 1;
      }
      assert blocks[..k] == blocks;
    }
  }

  method ListBlock(b: Buf) returns (out: seq<DirEntry>)
    requires Tiled(b)
    ensures out == BlockEntries(b)
  {
    hide RecOk, LenAt, InoAt, UsedAt, Entries, Tiles;
    NoEntries(b);
    out := [];
    var off := 0;
    while off < BLOCK
      invariant off <= BLOCK && Tiles(b, 0, off) && Tiles(b, off, BLOCK) && out == Entries(b, 0, off)
      decreases BLOCK - off
    {
      RecBounds(b, off);
      Extend(b, off);
      if InoAt(b, off) != 0 && b[off + 6] > 0 {
        out := out + [DirEntry(b[off + HEADER..off + HEADER + b[off + 6]], InoAt(b, off))];
      }
      off := off + LenAt(b, off);
    }
  }

  lemma Extend(b: Buf, off: nat)
    requires off < BLOCK && Tiles(b, 0, off) && Tiles(b, off, BLOCK)
    ensures off + HEADER <= BLOCK && off + UsedAt(b, off) <= BLOCK
    ensures InoAt(b, off) != 0 ==> b[off + 6] > 0
    ensures Tiles(b, 0, off + LenAt(b, off))
    ensures Entries(b, 0, off + LenAt(b, off)) == Entries(b, 0, off) + EntryAt(b, off)
  {
    hide Entries;
    RecBounds(b, off);
    OneRec(b, off, off + LenAt(b, off));
    TilesAppend(b, 0, off, off + LenAt(b, off));
  }

  lemma EmptyBlock(b: Buf)
    requires InoAt(b, 0) == 0 && LenAt(b, 0) == BLOCK
    ensures Tiled(b) && BlockEntries(b) == []
  {
    OneRec(b, 0, BLOCK);
  }

  lemma Grown(blocks: seq<Buf>, b: Buf)
    requires AllTiled(blocks) && Tiled(b) && BlockEntries(b) == []
    ensures AllTiled(blocks + [b]) && All(blocks + [b]) == All(blocks)
  {
    assert (blocks + [b])[..|blocks|] == blocks;
  }
}
