/**
 Direct and indirect block mapping (ext4_legacy_get_data_block in fs/ext4/file.c and
 ext4_free_legacy_data_blocks in fs/ext4/inode.c): twelve direct pointers, a block of pointers, and a
 block of pointers to such blocks, on values.
 */
module LegacyMap {
  import opened Runs

  /** Pointers per block. */
  const PTRS: nat := 1024
  const DIRECT: nat := 12
  const IND: nat := 12
  const DBL: nat := 13
  const TRIPLE: nat := 14
  const REACH: nat := DIRECT + PTRS + PTRS * PTRS

  type PtrBlock = s: seq<nat> | |s| == PTRS witness seq(PTRS, _ => 0)

  /** The pointer blocks on disk. */
  type PtrDisk = map<nat, PtrBlock>

  /** i_block */
  type Pointers = s: seq<nat> | |s| == 15 witness seq(15, _ => 0)

  function NoPtrs(): PtrBlock {
    seq(PTRS, _ => 0)
  }

  function Ptrs(disk: PtrDisk, b: nat): PtrBlock {
    if b != 0 && b in disk then disk[b] else NoPtrs()
  }

  /** The block mapped to l; 0 means none. */
  function Lookup(disk: PtrDisk, ib: Pointers, l: nat): nat {
    if l < DIRECT then ib[l]
    else if l < DIRECT + PTRS then Ptrs(disk, ib[IND])[l - DIRECT]
    else if l < REACH then
      var k := l - DIRECT - PTRS;
      Ptrs(disk, Ptrs(disk, ib[DBL])[k / PTRS])[k % PTRS]
    else 0
  }

  // ---------- the blocks in order ----------

  /** What the pointer blocks that s leads to hold, one after the other. */
  function Chain(disk: PtrDisk, s: seq<nat>): seq<nat> {
    if s == [] then [] else Chain(disk, s[..|s| - 1]) + Ptrs(disk, s[|s| - 1])
  }

  /** The blocks of a file in order: the direct pointers, then the block of pointers, then the blocks of pointers
      that the double indirect block leads to. */
  function InOrder(disk: PtrDisk, ib: Pointers): seq<nat> {
    ib[..DIRECT] + Ptrs(disk, ib[IND]) + Chain(disk, Ptrs(disk, ib[DBL]))
  }

  lemma {:induction false} ChainAt(disk: PtrDisk, s: seq<nat>, i: nat, j: nat)
    requires j < PTRS
    ensures |Chain(disk, s)| == |s| * PTRS
    ensures i < |s| ==> i * PTRS + j < |s| * PTRS && Chain(disk, s)[i * PTRS + j] == Ptrs(disk, s[i])[j]
  {
    hide Ptrs;
    if s != [] {
      var n := |s| - 1;
      ChainAt(disk, s[..n], i, j);
      if i < n {
        assert s[..n][i] == s[i];
      }
    }
  }

  /** The mapping finds the l-th of them, and nothing behind the last. */
  lemma LookupInOrder(disk: PtrDisk, ib: Pointers, l: nat)
    ensures |InOrder(disk, ib)| == REACH
    ensures Lookup(disk, ib, l) == if l < REACH then InOrder(disk, ib)[l] else 0
  {
    hide Ptrs, Chain;
    var s := Ptrs(disk, ib[DBL]);
    ChainAt(disk, s, 0, 0);
    if DIRECT + PTRS <= l < REACH {
      var k := l - DIRECT - PTRS;
      ChainAt(disk, s, k / PTRS, k % PTRS);
    }
  }

  // ---------- ownership ----------

  function One(b: nat): multiset<nat> {
    if b == 0 then multiset{} else multiset{b}
  }

  /** The blocks that pointers lead to. */
  function Targets(s: seq<nat>): multiset<nat> {
    if s == [] then multiset{} else Targets(s[..|s| - 1]) + One(s[|s| - 1])
  }

  /** A pointer block and what it points to. */
  function Under(disk: PtrDisk, b: nat): multiset<nat> {
    if b == 0 then multiset{} else multiset{b} + Targets(Ptrs(disk, b))
  }

  function UnderAll(disk: PtrDisk, s: seq<nat>): multiset<nat> {
    if s == [] then multiset{} else UnderAll(disk, s[..|s| - 1]) + Under(disk, s[|s| - 1])
  }

  function UnderDouble(disk: PtrDisk, b: nat): multiset<nat> {
    if b == 0 then multiset{} else multiset{b} + UnderAll(disk, Ptrs(disk, b))
  }

  /** All blocks an inode owns: data blocks and pointer blocks. */
  function Owned(disk: PtrDisk, ib: Pointers): multiset<nat> {
    Targets(ib[..DIRECT]) + Under(disk, ib[IND]) + UnderDouble(disk, ib[DBL]) + One(ib[TRIPLE])
  }

  /** Pointer blocks are there to be read. */
  ghost predicate Readable(disk: PtrDisk, ib: Pointers) {
    && (ib[IND] != 0 ==> ib[IND] in disk)
    && (ib[DBL] != 0 ==> ib[DBL] in disk)
    && forall i :: 0 <= i < PTRS ==> (Ptrs(disk, ib[DBL])[i] != 0 ==> Ptrs(disk, ib[DBL])[i] in disk)
  }

  ghost predicate Wf(disk: PtrDisk, ib: Pointers) {
    Readable(disk, ib) && Once(Owned(disk, ib))
  }

  // ---------- sums ----------

  lemma {:induction false} TargetsPut(s: seq<nat>, i: nat, v: nat)
    requires i < |s| && s[i] == 0 && v != 0
    ensures Targets(s[i := v]) == Targets(s) + multiset{v}
  {
    var n := |s| - 1;
    if i == n {
      assert s[i := v][..n] == s[..n];
    } else {
      TargetsPut(s[..n], i, v);
      assert s[i := v][..n] == s[..n][i := v];
    }
  }

  lemma {:induction false} NoTargets(s: seq<nat>)
    requires forall i :: 0 <= i < |s| ==> s[i] == 0
    ensures Targets(s) == multiset{}
  {
    if s != [] {
      NoTargets(s[..|s| - 1]);
    }
  }

  lemma NothingAtZero(disk: PtrDisk)
    ensures Under(disk, 0) == multiset{}
  {
  }

  lemma Swap(a: multiset<nat>, b: multiset<nat>, c: multiset<nat>)
    ensures a + b + c == a + c + b
  {
  }

  lemma {:induction false} UnderAllPut(disk: PtrDisk, s: seq<nat>, i: nat, v: nat)
    requires i < |s| && s[i] == 0
    ensures UnderAll(disk, s[i := v]) == UnderAll(disk, s) + Under(disk, v)
  {
    hide Under;
    NothingAtZero(disk);
    var n := |s| - 1;
    var rest, last, more := UnderAll(disk, s[..n]), Under(disk, s[n]), Under(disk, v);
    if i == n {
      assert s[i := v][..n] == s[..n];
      assert UnderAll(disk, s) == rest;
    } else {
      UnderAllPut(disk, s[..n], i, v);
      assert s[i := v][..n] == s[..n][i := v];
      assert UnderAll(disk, s[i := v]) == rest + more + last;
      Swap(rest, more, last);
    }
  }

  lemma {:induction false} NothingUnder(disk: PtrDisk, s: seq<nat>)
    requires forall i :: 0 <= i < |s| ==> s[i] == 0
    ensures UnderAll(disk, s) == multiset{}
  {
    if s != [] {
      NothingUnder(disk, s[..|s| - 1]);
    }
  }

  /** Pointer blocks outside a subtree do not matter to it. */
  lemma {:induction false} UnderAllFrame(d0: PtrDisk, d1: PtrDisk, s: seq<nat>)
    requires forall b :: b in UnderAll(d0, s) ==> Ptrs(d1, b) == Ptrs(d0, b)
    ensures UnderAll(d1, s) == UnderAll(d0, s)
  {
    hide Targets, Ptrs;
    if s != [] {
      var n := |s| - 1;
      assert UnderAll(d0, s) == UnderAll(d0, s[..n]) + Under(d0, s[n]);
      forall b | b in UnderAll(d0, s[..n])
        ensures Ptrs(d1, b) == Ptrs(d0, b)
      {
        assert b in UnderAll(d0, s);
      }
      UnderAllFrame(d0, d1, s[..n]);
      if s[n] != 0 {
        assert s[n] in Under(d0, s[n]);
        assert s[n] in UnderAll(d0, s);
      }
    }
  }

  lemma {:induction false} InUnderAll(disk: PtrDisk, s: seq<nat>, i: nat)
    requires i < |s| && s[i] != 0
    ensures s[i] in UnderAll(disk, s)
  {
    hide Targets;
    var n := |s| - 1;
    if i == n {
      assert s[i] in Under(disk, s[i]);
    } else {
      InUnderAll(disk, s[..n], i);
    }
  }

  /** One more pointer in the i-th of the blocks that s points to. */
  lemma {:induction false} UnderAllGrow(d0: PtrDisk, d1: PtrDisk, s: seq<nat>, i: nat, v: nat)
    requires i < |s| && s[i] != 0 && Once(UnderAll(d0, s))
    requires forall b :: b != s[i] ==> Ptrs(d1, b) == Ptrs(d0, b)
    requires Targets(Ptrs(d1, s[i])) == Targets(Ptrs(d0, s[i])) + multiset{v}
    ensures UnderAll(d1, s) == UnderAll(d0, s) + multiset{v}
  {
    hide Under, UnderAll, Ptrs, Targets, Once;
    var n := |s| - 1;
    UnderKept(d0, d1, s[i], s[n], v);
    LastUnder(d0, s);
    LastUnder(d1, s);
    var rest, last := UnderAll(d0, s[..n]), Under(d0, s[n]);
    OnceParts(rest, last);
    if i == n {
      UnderAllFrame(d0, d1, s[..n]);
    } else {
      InUnderAll(d0, s[..n], i);
      UnderAllGrow(d0, d1, s[..n], i, v);
    }
    SumGrow(UnderAll(d1, s[..n]), Under(d1, s[n]), rest, last, v);
  }

  lemma SelfUnder(disk: PtrDisk, b: nat)
    requires b != 0
    ensures b in Under(disk, b)
  {
    assert b in multiset{b};
  }

  lemma LastUnder(disk: PtrDisk, s: seq<nat>)
    requires s != []
    ensures UnderAll(disk, s) == UnderAll(disk, s[..|s| - 1]) + Under(disk, s[|s| - 1])
  {
  }

  lemma SumGrow(a': multiset<nat>, b': multiset<nat>, a: multiset<nat>, b: multiset<nat>, v: nat)
    requires (a' == a && b' == b + multiset{v}) || (a' == a + multiset{v} && b' == b)
    ensures a' + b' == a + b + multiset{v}
  {
  }

  lemma UnderKept(d0: PtrDisk, d1: PtrDisk, c: nat, b: nat, v: nat)
    requires c != 0 && forall x :: x != c ==> Ptrs(d1, x) == Ptrs(d0, x)
    requires Targets(Ptrs(d1, c)) == Targets(Ptrs(d0, c)) + multiset{v}
    ensures c in Under(d0, c)
    ensures b != 0 ==> b in Under(d0, b)
    ensures b != c ==> Under(d1, b) == Under(d0, b)
    ensures Under(d1, c) == Under(d0, c) + multiset{v}
  {
    hide Targets, Ptrs;
  }

  // ---------- single steps ----------

  ghost predicate SameMap(d0: PtrDisk, ib0: Pointers, d1: PtrDisk, ib1: Pointers) {
    forall k: nat :: Lookup(d1, ib1, k) == Lookup(d0, ib0, k)
  }

  /** Only the mapping of l has changed. */
  ghost predicate Remapped(d0: PtrDisk, ib0: Pointers, d1: PtrDisk, ib1: Pointers, l: nat, v: nat) {
    forall k: nat :: Lookup(d1, ib1, k) == if k == l then v else Lookup(d0, ib0, k)
  }

  ghost predicate Took(d0: PtrDisk, ib0: Pointers, d1: PtrDisk, ib1: Pointers, v: nat) {
    Readable(d1, ib1) && Owned(d1, ib1) == Owned(d0, ib0) + multiset{v}
  }

  /** The pointer blocks agree, except for block x. */
  ghost predicate AgreeBut(d0: PtrDisk, d1: PtrDisk, x: nat) {
    (forall b :: b != x ==> Ptrs(d1, b) == Ptrs(d0, b)) && (forall b :: b in d0 ==> b in d1)
  }

  lemma Parts(disk: PtrDisk, ib: Pointers)
    requires Once(Owned(disk, ib))
    ensures Once(UnderDouble(disk, ib[DBL]))
    ensures ib[IND] != 0 ==> ib[IND] in Owned(disk, ib) && ib[IND] !in UnderDouble(disk, ib[DBL])
    ensures ib[DBL] != 0 ==>
              && ib[DBL] in Owned(disk, ib) && ib[DBL] !in Under(disk, ib[IND]) && ib[DBL] !in UnderAll(disk,
                  Ptrs(disk, ib[DBL]))
              && Once(UnderAll(disk, Ptrs(disk, ib[DBL])))
    ensures forall b :: b in UnderDouble(disk, ib[DBL]) ==> b in Owned(disk, ib) && b !in Under(disk, ib[IND])
  {
    hide Targets, UnderAll, Ptrs;
    var a, b, c, e := Targets(ib[..DIRECT]), Under(disk, ib[IND]), UnderDouble(disk, ib[DBL]), One(ib[TRIPLE]);
    OnceParts(a + b + c, e);
    OnceParts(a + b, c);
    if ib[IND] != 0 {
      assert ib[IND] in b;
    }
    if ib[DBL] != 0 {
      assert ib[DBL] in c;
      OnceParts(multiset{ib[DBL]}, UnderAll(disk, Ptrs(disk, ib[DBL])));
      assert ib[DBL] in multiset{ib[DBL]};
    }
  }

  /** What the second-level pointers lead to is owned. */
  lemma SecondOwned(disk: PtrDisk, ib: Pointers, i: nat)
    requires i < PTRS && Ptrs(disk, ib[DBL])[i] != 0
    ensures ib[DBL] != 0 && Ptrs(disk, ib[DBL])[i] in UnderAll(disk, Ptrs(disk, ib[DBL]))
    ensures Ptrs(disk, ib[DBL])[i] in UnderDouble(disk, ib[DBL])
  {
    InUnderAll(disk, Ptrs(disk, ib[DBL]), i);
  }

  /** None of the pointer blocks is one that the inode does not own. */
  lemma PointersNot(disk: PtrDisk, ib: Pointers, x: nat)
    requires Once(Owned(disk, ib)) && x !in Owned(disk, ib) && x != 0
    ensures ib[IND] != x && ib[DBL] != x
    ensures forall i :: 0 <= i < PTRS ==> Ptrs(disk, ib[DBL])[i] != x
    ensures x !in UnderDouble(disk, ib[DBL])
  {
    Parts(disk, ib);
    hide Targets, UnderAll, Owned, Ptrs, Under, UnderDouble;
    forall i | 0 <= i < PTRS
      ensures Ptrs(disk, ib[DBL])[i] != x
    {
      if Ptrs(disk, ib[DBL])[i] != 0 {
        SecondOwned(disk, ib, i);
      }
    }
  }

  /** A write to a block that the inode does not own goes unnoticed. */
  lemma Unnoticed(d0: PtrDisk, d1: PtrDisk, ib: Pointers, x: nat)
    requires Wf(d0, ib) && x !in Owned(d0, ib) && x != 0 && AgreeBut(d0, d1, x)
    ensures Owned(d1, ib) == Owned(d0, ib) && SameMap(d0, ib, d1, ib) && Readable(d1, ib)
  {
    hide Targets, Ptrs, UnderAll, Owned, Lookup;
    PointersNot(d0, ib, x);
    DoubleKept(d0, d1, ib[DBL], x);
    SumUp(d0, d1, ib);
    forall k: nat
      ensures Lookup(d1, ib, k) == Lookup(d0, ib, k)
    {
      LookupKept(d0, d1, ib, x, k);
    }
  }

  lemma DoubleKept(d0: PtrDisk, d1: PtrDisk, b: nat, x: nat)
    requires b != x && x !in UnderDouble(d0, b) && AgreeBut(d0, d1, x)
    ensures UnderDouble(d1, b) == UnderDouble(d0, b)
  {
    hide Targets, Ptrs;
    if b != 0 {
      forall c | c in UnderAll(d0, Ptrs(d0, b))
        ensures c != x
      {
        assert c in UnderDouble(d0, b);
      }
      UnderAllFrame(d0, d1, Ptrs(d0, b));
    }
  }

  lemma SumUp(d0: PtrDisk, d1: PtrDisk, ib: Pointers)
    requires Under(d1, ib[IND]) == Under(d0, ib[IND]) && UnderDouble(d1, ib[DBL]) == UnderDouble(d0, ib[DBL])
    ensures Owned(d1, ib) == Owned(d0, ib)
  {
  }

  lemma LookupKept(d0: PtrDisk, d1: PtrDisk, ib: Pointers, x: nat, k: nat)
    requires ib[IND] != x && ib[DBL] != x && (forall i :: 0 <= i < PTRS ==> Ptrs(d0, ib[DBL])[i] != x) &&
        AgreeBut(d0, d1, x)
    ensures Lookup(d1, ib, k) == Lookup(d0, ib, k)
  {
    hide Ptrs;
  }

  /** A new direct block. */
  lemma PutDirect(disk: PtrDisk, ib: Pointers, i: nat, v: nat)
    requires Wf(disk, ib) && i < DIRECT && ib[i] == 0 && v != 0
    ensures Took(disk, ib, disk, ib[i := v], v) && Remapped(disk, ib, disk, ib[i := v], i, v)
  {
    hide Owned, Targets, Under, UnderDouble, Ptrs, One;
    TargetsPut(ib[..DIRECT], i, v);
    assert ib[i := v][..DIRECT] == ib[..DIRECT][i := v];
    var a, b, c, e := Targets(ib[..DIRECT]), Under(disk, ib[IND]), UnderDouble(disk, ib[DBL]), One(ib[TRIPLE]);
    OwnedIs(disk, ib, a, b, c, e);
    OwnedIs(disk, ib[i := v], a + multiset{v}, b, c, e);
    Sum4(a, b, c, e, v);
  }

  lemma OwnedIs(disk: PtrDisk, ib: Pointers, a: multiset<nat>, b: multiset<nat>, c: multiset<nat>, d: multiset<nat>)
    requires Targets(ib[..DIRECT]) == a && Under(disk, ib[IND]) == b && UnderDouble(disk, ib[DBL]) == c
    requires One(ib[TRIPLE]) == d
    ensures Owned(disk, ib) == a + b + c + d
  {
  }

  lemma Sum4(a: multiset<nat>, b: multiset<nat>, c: multiset<nat>, d: multiset<nat>, v: nat)
    ensures (a + multiset{v}) + b + c + d == a + b + c + d + multiset{v}
    ensures a + (b + multiset{v}) + c + d == a + b + c + d + multiset{v}
    ensures a + b + (c + multiset{v}) + d == a + b + c + d + multiset{v}
  {
  }

  lemma EmptyBlock(disk: PtrDisk, v: nat)
    requires v != 0 && Ptrs(disk, v) == NoPtrs()
    ensures Under(disk, v) == multiset{v} && UnderDouble(disk, v) == multiset{v}
    ensures Under(disk, 0) == multiset{} && UnderDouble(disk, 0) == multiset{}
  {
    NoTargets(NoPtrs());
    NothingUnder(disk, NoPtrs());
  }

  /** A block of zero pointers takes the place of no block at all. */
  lemma HookIndirect(disk: PtrDisk, ib: Pointers, v: nat)
    requires Readable(disk, ib) && ib[IND] == 0 && v != 0 && v in disk && disk[v] == NoPtrs()
    ensures Took(disk, ib, disk, ib[IND := v], v) && SameMap(disk, ib, disk, ib[IND := v])
  {
    var ib1 := ib[IND := v];
    EmptyBlock(disk, v);
    assert Ptrs(disk, v) == Ptrs(disk, 0);
    hide Owned, Targets, Under, UnderDouble, Ptrs, One;
    assert ib1[..DIRECT] == ib[..DIRECT];
    var a, c, e := Targets(ib[..DIRECT]), UnderDouble(disk, ib[DBL]), One(ib[TRIPLE]);
    OwnedIs(disk, ib, a, multiset{}, c, e);
    OwnedIs(disk, ib1, a, multiset{} + multiset{v}, c, e);
    Sum4(a, multiset{}, c, e, v);
  }

  lemma HookDouble(disk: PtrDisk, ib: Pointers, v: nat)
    requires Readable(disk, ib) && ib[DBL] == 0 && v != 0 && v in disk && disk[v] == NoPtrs()
    ensures Took(disk, ib, disk, ib[DBL := v], v) && SameMap(disk, ib, disk, ib[DBL := v])
  {
    var ib1 := ib[DBL := v];
    EmptyBlock(disk, v);
    assert Ptrs(disk, v) == Ptrs(disk, 0);
    hide Owned, Targets, Under, UnderDouble, Ptrs, One;
    assert ib1[..DIRECT] == ib[..DIRECT];
    var a, b, e := Targets(ib[..DIRECT]), Under(disk, ib[IND]), One(ib[TRIPLE]);
    OwnedIs(disk, ib, a, b, multiset{}, e);
    OwnedIs(disk, ib1, a, b, multiset{} + multiset{v}, e);
    Sum4(a, b, multiset{}, e, v);
  }

  /** A new, empty block of pointers. */
  lemma PutIndirect(d0: PtrDisk, ib: Pointers, v: nat)
    requires Wf(d0, ib) && ib[IND] == 0 && v != 0 && v !in Owned(d0, ib)
    ensures Took(d0, ib, d0[v := NoPtrs()], ib[IND := v], v) && SameMap(d0, ib, d0[v := NoPtrs()], ib[IND := v])
  {
    var d1 := d0[v := NoPtrs()];
    assert AgreeBut(d0, d1, v);
    hide Owned, Lookup, Readable, Ptrs;
    Unnoticed(d0, d1, ib, v);
    HookIndirect(d1, ib, v);
  }

  /** A new, empty block of pointers to such blocks. */
  lemma PutDouble(d0: PtrDisk, ib: Pointers, v: nat)
    requires Wf(d0, ib) && ib[DBL] == 0 && v != 0 && v !in Owned(d0, ib)
    ensures Took(d0, ib, d0[v := NoPtrs()], ib[DBL := v], v) && SameMap(d0, ib, d0[v := NoPtrs()], ib[DBL := v])
  {
    var d1 := d0[v := NoPtrs()];
    assert AgreeBut(d0, d1, v);
    hide Owned, Lookup, Readable, Ptrs;
    Unnoticed(d0, d1, ib, v);
    HookDouble(d1, ib, v);
  }

  /** A new data block in the block of pointers. */
  lemma PutInIndirect(d0: PtrDisk, ib: Pointers, i: nat, v: nat)
    requires Wf(d0, ib) && ib[IND] != 0 && i < PTRS && Ptrs(d0, ib[IND])[i] == 0 && v != 0
    ensures ib[IND] in d0
    ensures var d1 := d0[ib[IND] := d0[ib[IND]][i := v]];
            Took(d0, ib, d1, ib, v) && Remapped(d0, ib, d1, ib, DIRECT + i, v)
  {
    hide Owned, Targets, UnderDouble, UnderAll, Lookup, One;
    var b := ib[IND];
    var d1 := d0[b := d0[b][i := v]];
    Parts(d0, ib);
    NotInDouble(d0, ib, b);
    DoubleKept(d0, d1, ib[DBL], b);
    TargetsPut(d0[b], i, v);
    IndirectLookups(d0, d1, ib, i, v);
    MoreUnder(d0, d1, b, v);
    var x, y, c, e := Targets(ib[..DIRECT]), Under(d0, b), UnderDouble(d0, ib[DBL]), One(ib[TRIPLE]);
    OwnedIs(d0, ib, x, y, c, e);
    OwnedIs(d1, ib, x, y + multiset{v}, c, e);
    Sum4(x, y, c, e, v);
  }

  lemma MoreUnder(d0: PtrDisk, d1: PtrDisk, b: nat, v: nat)
    requires b != 0 && Targets(Ptrs(d1, b)) == Targets(Ptrs(d0, b)) + multiset{v}
    ensures Under(d1, b) == Under(d0, b) + multiset{v}
  {
    hide Targets, Ptrs;
  }

  /** The double-indirect part does not lead through a block outside it. */
  lemma NotInDouble(disk: PtrDisk, ib: Pointers, x: nat)
    requires x != 0 && x !in UnderDouble(disk, ib[DBL])
    ensures ib[DBL] != x && forall i :: 0 <= i < PTRS ==> Ptrs(disk, ib[DBL])[i] != x
  {
    hide Targets, UnderAll, Ptrs;
    if ib[DBL] != 0 {
      assert ib[DBL] in UnderDouble(disk, ib[DBL]);
    }
    forall i | 0 <= i < PTRS
      ensures Ptrs(disk, ib[DBL])[i] != x
    {
      if Ptrs(disk, ib[DBL])[i] != 0 {
        SecondOwned(disk, ib, i);
      }
    }
  }

  lemma IndirectLookups(d0: PtrDisk, d1: PtrDisk, ib: Pointers, i: nat, v: nat)
    requires ib[IND] != 0 && i < PTRS && AgreeBut(d0, d1, ib[IND]) && Ptrs(d1, ib[IND]) == Ptrs(d0, ib[IND])[i := v]
    requires ib[DBL] != ib[IND] && forall j :: 0 <= j < PTRS ==> Ptrs(d0, ib[DBL])[j] != ib[IND]
    ensures Remapped(d0, ib, d1, ib, DIRECT + i, v)
  {
    hide Ptrs;
  }

  /** No two second-level pointers are the same. */
  lemma {:induction false} UnderAllDistinct(disk: PtrDisk, s: seq<nat>, i: nat, j: nat)
    requires i < j < |s| && s[i] != 0 && Once(UnderAll(disk, s))
    ensures s[j] != s[i]
  {
    hide Targets, Ptrs, Once, UnderAll, Under;
    var n := |s| - 1;
    LastUnder(disk, s);
    OnceParts(UnderAll(disk, s[..n]), Under(disk, s[n]));
    if j == n {
      InUnderAll(disk, s[..n], i);
      if s[n] != 0 {
        SelfUnder(disk, s[n]);
      }
    } else {
      UnderAllDistinct(disk, s[..n], i, j);
    }
  }

  /** An empty second-level block takes the place of none. */
  lemma HookSecond(d0: PtrDisk, ib: Pointers, i: nat, v: nat, d1: PtrDisk)
    requires Wf(d0, ib) && ib[DBL] != 0 && i < PTRS && Ptrs(d0, ib[DBL])[i] == 0
    requires v != 0 && v in d0 && d0[v] == NoPtrs() && v !in Owned(d0, ib)
    requires d1 == d0[ib[DBL] := Ptrs(d0, ib[DBL])[i := v]]
    ensures Took(d0, ib, d1, ib, v) && SameMap(d0, ib, d1, ib)
  {
    hide Owned, Targets, UnderAll, Lookup, One, Once, UnderDouble, Under;
    var b := ib[DBL];
    var es := Ptrs(d0, b);
    Parts(d0, ib);
    assert b != v && AgreeBut(d0, d1, b) && Ptrs(d1, b) == es[i := v];
    SecondAdded(d0, d1, es, i, v, b);
    IndirectKept(d0, d1, ib, b);
    SecondLookups(d0, d1, ib, i, v);
    var x, y, c, e := Targets(ib[..DIRECT]), Under(d0, ib[IND]), UnderDouble(d0, b), One(ib[TRIPLE]);
    OwnedIs(d0, ib, x, y, c, e);
    OwnedIs(d1, ib, x, y, c + multiset{v}, e);
    Sum4(x, y, c, e, v);
  }

  lemma SecondAdded(d0: PtrDisk, d1: PtrDisk, es: PtrBlock, i: nat, v: nat, b: nat)
    requires b != 0 && b != v && v != 0 && i < PTRS && es[i] == 0 && es == Ptrs(d0, b) && Ptrs(d0, v) == NoPtrs()
    requires AgreeBut(d0, d1, b) && Ptrs(d1, b) == es[i := v] && b !in UnderAll(d0, es)
    ensures UnderDouble(d1, b) == UnderDouble(d0, b) + multiset{v}
  {
    EmptyBlock(d0, v);
    hide Targets, UnderAll, Ptrs, Under;
    UnderAllPut(d0, es, i, v);
    forall c | c in UnderAll(d0, es[i := v])
      ensures Ptrs(d1, c) == Ptrs(d0, c)
    {
    }
    UnderAllFrame(d0, d1, es[i := v]);
    Assoc(multiset{b}, UnderAll(d0, es), v);
  }

  lemma Assoc(a: multiset<nat>, b: multiset<nat>, v: nat)
    ensures a + (b + multiset{v}) == a + b + multiset{v}
  {
  }

  lemma IndirectKept(d0: PtrDisk, d1: PtrDisk, ib: Pointers, x: nat)
    requires AgreeBut(d0, d1, x) && x != 0 && x !in Under(d0, ib[IND])
    ensures Under(d1, ib[IND]) == Under(d0, ib[IND]) && ib[IND] != x
  {
    hide Targets;
    if ib[IND] != 0 {
      assert ib[IND] in Under(d0, ib[IND]);
    }
  }

  lemma SecondLookups(d0: PtrDisk, d1: PtrDisk, ib: Pointers, i: nat, v: nat)
    requires ib[DBL] != 0 && ib[IND] != ib[DBL] && i < PTRS && v != 0 && v != ib[DBL] && AgreeBut(d0, d1, ib[DBL])
    requires Ptrs(d0, ib[DBL])[i] == 0 && Ptrs(d1, ib[DBL]) == Ptrs(d0, ib[DBL])[i := v] && Ptrs(d0, v) == NoPtrs()
    requires ib[DBL] !in UnderAll(d0, Ptrs(d0, ib[DBL]))
    ensures SameMap(d0, ib, d1, ib)
  {
    assert Ptrs(d0, 0) == NoPtrs();
    forall j | 0 <= j < PTRS
      ensures Ptrs(d0, ib[DBL])[j] != ib[DBL]
    {
      if Ptrs(d0, ib[DBL])[j] != 0 {
        InUnderAll(d0, Ptrs(d0, ib[DBL]), j);
      }
    }
    hide Ptrs, UnderAll;
    forall k: nat
      ensures Lookup(d1, ib, k) == Lookup(d0, ib, k)
    {
    }
  }

  lemma OneFresh(disk: PtrDisk, v: nat)
    requires v != 0
    ensures AgreeBut(disk, disk[v := NoPtrs()], v)
  {
  }

  /** A new, empty second-level block. */
  lemma PutSecond(d0: PtrDisk, ib: Pointers, i: nat, v: nat, d1: PtrDisk)
    requires Wf(d0, ib) && ib[DBL] != 0 && i < PTRS && Ptrs(d0, ib[DBL])[i] == 0 && v != 0 && v !in Owned(d0, ib)
    requires d1 == d0[ib[DBL] := Ptrs(d0, ib[DBL])[i := v]][v := NoPtrs()]
    ensures Took(d0, ib, d1, ib, v) && SameMap(d0, ib, d1, ib)
  {
    hide Owned, Lookup, UnderAll, Targets, NoPtrs, UnderDouble, AgreeBut, Once;
    var dz := d0[v := NoPtrs()];
    OneFresh(d0, v);
    PointersNot(d0, ib, v);
    assert d1 == dz[ib[DBL] := Ptrs(dz, ib[DBL])[i := v]];
    Unnoticed(d0, dz, ib, v);
    HookSecond(dz, ib, i, v, d1);
  }

  /** A new data block in a second-level block. */
  lemma PutInSecond(d0: PtrDisk, ib: Pointers, i: nat, j: nat, v: nat, c: nat)
    requires Wf(d0, ib) && i < PTRS && j < PTRS && c == Ptrs(d0, ib[DBL])[i] && c != 0
    requires Ptrs(d0, c)[j] == 0 && v != 0
    ensures c in d0
    ensures var d1 := d0[c := d0[c][j := v]];
            Took(d0, ib, d1, ib, v) && Remapped(d0, ib, d1, ib, DIRECT + PTRS + i * PTRS + j, v)
  {
    hide Owned, Targets, UnderAll, Lookup, One, Once;
    var b := ib[DBL];
    var es := Ptrs(d0, b);
    var d1 := d0[c := d0[c][j := v]];
    Parts(d0, ib);
    SecondOwned(d0, ib, i);
    assert b != c && AgreeBut(d0, d1, c);
    TargetsPut(d0[c], j, v);
    UnderAllGrow(d0, d1, es, i, v);
    IndirectKept(d0, d1, ib, c);
    InSecondLookups(d0, d1, ib, i, j, v, c);
    var x, y, e := Targets(ib[..DIRECT]), Under(d0, ib[IND]), One(ib[TRIPLE]);
    OwnedIs(d0, ib, x, y, multiset{b} + UnderAll(d0, es), e);
    Assoc(multiset{b}, UnderAll(d0, es), v);
    OwnedIs(d1, ib, x, y, multiset{b} + UnderAll(d0, es) + multiset{v}, e);
    Sum4(x, y, multiset{b} + UnderAll(d0, es), e, v);
  }

  lemma InSecondLookups(d0: PtrDisk, d1: PtrDisk, ib: Pointers, i: nat, j: nat, v: nat, c: nat)
    requires i < PTRS && j < PTRS && c == Ptrs(d0, ib[DBL])[i] && c != 0 && AgreeBut(d0, d1, c)
    requires ib[DBL] != c && ib[IND] != c && Ptrs(d1, c) == Ptrs(d0, c)[j := v]
    requires Once(UnderAll(d0, Ptrs(d0, ib[DBL])))
    ensures Remapped(d0, ib, d1, ib, DIRECT + PTRS + i * PTRS + j, v)
  {
    hide UnderAll, Ptrs;
    var es := Ptrs(d0, ib[DBL]);
    forall k: nat | k < PTRS && k != i
      ensures es[k] != c
    {
      if k < i && es[k] != 0 {
        UnderAllDistinct(d0, es, k, i);
      } else if i < k {
        UnderAllDistinct(d0, es, i, k);
      }
    }
    forall l: nat
      ensures Lookup(d1, ib, l) == if l == DIRECT + PTRS + i * PTRS + j then v else Lookup(d0, ib, l)
    {
    }
  }
}
