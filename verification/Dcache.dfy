/**
 The dentry cache (fs/dcache.c): a pool of dentries with reference counts, parents that their children
 keep alive, and sibling lists.  References held from outside are counted by a ghost variable; that
 the counts are right means that each is the number of outside holders plus the number of children.
 Inode reference counts are not part of this model.
 */
module Dcache {
  import opened Wrappers

  const POOL: nat := 256
  const INLINE_NAME: nat := 32

  /** struct dentry: listed tells whether d_child is linked into the parent's d_subdirs. */
  datatype Dentry = Dentry(count: nat, name: string, parent: Option<nat>, inode: Option<nat>, listed: bool,
      subdirs: seq<nat>)

  /** The pool as a value. */
  datatype Cache = Cache(used: seq<bool>, pool: seq<Dentry>)

  /** What is not in memory: outside references per dentry, and a rank that grows from parent to child. */
  datatype Books = Books(holders: seq<nat>, rank: seq<nat>, top: nat)

  predicate Sized(c: Cache, k: Books) {
    |c.used| == |c.pool| == |k.holders| == |k.rank| == POOL
  }

  predicate Live(c: Cache, i: nat)
    requires |c.used| == POOL
  {
    i < POOL && c.used[i]
  }

  /** The children of i; the root, its own parent, is not one. */
  function Kids(c: Cache, i: nat): set<nat>
    requires |c.used| == |c.pool| == POOL
  {
    set j | 0 <= j < POOL && c.used[j] && j != i && c.pool[j].parent == Some(i)
  }

  ghost predicate Counted(c: Cache, k: Books, i: nat)
    requires Sized(c, k) && i < POOL
  {
    if c.used[i] then c.pool[i].count == k.holders[i] + |Kids(c, i)| && 1 <= c.pool[i].count
    else k.holders[i] == 0
  }

  ghost predicate Parented(c: Cache, k: Books, j: nat)
    requires Sized(c, k) && j < POOL
  {
    c.used[j] && c.pool[j].parent.Some? ==>
      var p := c.pool[j].parent.value;
      Live(c, p) && (p != j ==> k.rank[p] < k.rank[j])
  }

  /** The sibling list of i holds children of i that have an inode, each at most once, and they know. */
  ghost predicate Listed(c: Cache, i: nat)
    requires |c.used| == |c.pool| == POOL && i < POOL
  {
    c.used[i] ==>
      && (forall j :: j in c.pool[i].subdirs ==> j in Kids(c, i) && c.pool[j].listed && c.pool[j].inode.Some?)
      && (forall a, b :: 0 <= a < b < |c.pool[i].subdirs| ==> c.pool[i].subdirs[a] != c.pool[i].subdirs[b])
  }

  /** Dentries in use that are linked are in their parent's list, and every one that has an inode and is
      not a root is linked. */
  ghost predicate Linked(c: Cache, j: nat)
    requires |c.used| == |c.pool| == POOL && j < POOL
  {
    c.used[j] ==>
      && (c.pool[j].listed ==>
          c.pool[j].parent.Some? && c.pool[j].parent.value < POOL && j in c.pool[c.pool[j].parent.value].subdirs)
      && (c.pool[j].inode.Some? && c.pool[j].parent.Some? && c.pool[j].parent != Some(j) ==> c.pool[j].listed)
  }

  ghost predicate Inv(c: Cache, k: Books) {
    && Sized(c, k)
    && (forall i :: 0 <= i < POOL ==> Counted(c, k, i) && k.rank[i] < k.top)
    && (forall i :: 0 <= i < POOL ==> Parented(c, k, i) && Listed(c, i) && Linked(c, i))
  }

  // ---------- the effect of single updates ----------

  function Without(s: seq<nat>, d: nat): seq<nat> {
    if s == [] then [] else if s[0] == d then s[1..] else [s[0]] + Without(s[1..], d)
  }

  lemma {:induction false} WithoutIs(s: seq<nat>, d: nat)
    requires forall a, b :: 0 <= a < b < |s| ==> s[a] != s[b]
    ensures forall j :: j in Without(s, d) <==> j in s && j != d
    ensures forall a, b :: 0 <= a < b < |Without(s, d)| ==> Without(s, d)[a] != Without(s, d)[b]
  {
    if s != [] {
      var w := Without(s[1..], d);
      WithoutIs(s[1..], d);
      assert s == [s[0]] + s[1..];
      if s[0] != d {
        forall b | 0 <= b < |w|
          ensures w[b] != s[0]
        {
          assert w[b] in w;
        }
      }
    }
  }

  function WithCount(c: Cache, i: nat, n: nat): Cache
    requires i < |c.pool|
  {
    c.(pool := c.pool[i := c.pool[i].(count := n)])
  }

  function Hold(k: Books, i: nat): Books
    requires i < |k.holders|
  {
    k.(holders := k.holders[i := k.holders[i] + 1])
  }

  function Drop(k: Books, i: nat): Books
    requires i < |k.holders| && k.holders[i] > 0
  {
    k.(holders := k.holders[i := k.holders[i] - 1])
  }

  /** A count that goes up or down together with the outside references stays right. */
  lemma CountHeld(c: Cache, k: Books, i: nat, k': Books, n: nat)
    requires Inv(c, k) && Live(c, i) && 1 <= n && |k'.holders| == POOL
    requires k' == k.(holders := k.holders[i := k'.holders[i]]) && n + k.holders[i] == c.pool[i].count + k'.holders[i]
    ensures Inv(WithCount(c, i, n), k')
  {
    var c' := WithCount(c, i, n);
    forall j | 0 <= j < POOL
      ensures Kids(c', j) == Kids(c, j)
    {
    }
    forall j | 0 <= j < POOL
      ensures Counted(c', k', j) && Parented(c', k', j) && Listed(c', j) && Linked(c', j)
    {
      assert Counted(c, k, j) && Parented(c, k, j) && Listed(c, j) && Linked(c, j);
    }
  }

  /** The pool after dentry d, which nobody refers to any more, has been unlinked and freed. */
  function FreeSlot(c: Cache, d: nat): Cache
    requires |c.used| == |c.pool| == POOL && d < POOL
  {
    var e := c.pool[d];
    var pool := if e.listed && e.parent.Some? && e.parent.value < POOL
                then
                  var p := e.parent.value;
                  c.pool[p := c.pool[p].(subdirs := Without(c.pool[p].subdirs, d))]
                else c.pool;
    Cache(c.used[d := false], pool[d := pool[d].(count := 0, parent := None, inode := None)])
  }

  /** The reference that a freed child had on its parent. */
  function Orphan(c: Cache, k: Books, d: nat): Books
    requires Sized(c, k) && d < POOL && k.holders[d] > 0
  {
    match c.pool[d].parent
    case Some(p) => if p != d && p < POOL then Hold(Drop(k, d), p) else Drop(k, d)
    case None => Drop(k, d)
  }

  /** d, used by nobody, is about to be freed. */
  ghost predicate Idle(c: Cache, k: Books, d: nat) {
    Inv(c, k) && Live(c, d) && k.holders[d] == 1 && c.pool[d].count == 1
  }

  lemma NoKids(c: Cache, k: Books, d: nat)
    requires Idle(c, k, d)
    ensures forall i :: 0 <= i < POOL && c.used[i] && i != d ==> c.pool[i].parent != Some(d)
    ensures forall i :: 0 <= i < POOL ==> Kids(FreeSlot(c, d), i) == Kids(c, i) - {d}
  {
    assert Counted(c, k, d) && Kids(c, d) == {};
    forall i | 0 <= i < POOL && c.used[i] && i != d
      ensures c.pool[i].parent != Some(d)
    {
      assert i in Kids(c, d) <==> c.pool[i].parent == Some(d);
    }
  }

  lemma FreeCounted(c: Cache, k: Books, d: nat, i: nat)
    requires Idle(c, k, d) && i < POOL
    ensures Counted(FreeSlot(c, d), Orphan(c, k, d), i)
  {
    NoKids(c, k, d);
    assert Counted(c, k, i) && Counted(c, k, d) && Parented(c, k, d);
    if c.used[i] && i != d {
      assert d in Kids(c, i) <==> c.pool[d].parent == Some(i);
    }
  }

  lemma FreeParented(c: Cache, k: Books, d: nat, i: nat)
    requires Idle(c, k, d) && i < POOL
    ensures Parented(FreeSlot(c, d), Orphan(c, k, d), i)
  {
    NoKids(c, k, d);
    assert Parented(c, k, i);
  }

  lemma FreeListed(c: Cache, k: Books, d: nat, i: nat)
    requires Idle(c, k, d) && i < POOL
    ensures Listed(FreeSlot(c, d), i) && Linked(FreeSlot(c, d), i)
  {
    hide Counted, Parented;
    NoKids(c, k, d);
    assert Listed(c, i) && Linked(c, i) && Linked(c, d);
    if c.used[i] {
      WithoutIs(c.pool[i].subdirs, d);
    }
    if c.used[i] && c.pool[i].listed {
      assert Parented(c, k, i);
      LinkedParent(c, k, i);
      WithoutIs(c.pool[c.pool[i].parent.value].subdirs, d);
    }
  }

  lemma LinkedParent(c: Cache, k: Books, i: nat)
    requires Inv(c, k) && Live(c, i) && c.pool[i].listed
    ensures c.pool[i].parent.Some? && Live(c, c.pool[i].parent.value)
    ensures Listed(c, c.pool[i].parent.value)
  {
    assert Linked(c, i) && Parented(c, k, i);
  }

  lemma FreeSlotKeeps(c: Cache, k: Books, d: nat)
    requires Idle(c, k, d)
    ensures Inv(FreeSlot(c, d), Orphan(c, k, d))
  {
    hide Counted, Parented, Listed, Linked;
    forall i | 0 <= i < POOL
      ensures Counted(FreeSlot(c, d), Orphan(c, k, d), i) && Parented(FreeSlot(c, d), Orphan(c, k, d), i)
      ensures Listed(FreeSlot(c, d), i) && Linked(FreeSlot(c, d), i)
    {
      FreeCounted(c, k, d, i);
      FreeParented(c, k, d, i);
      FreeListed(c, k, d, i);
    }
  }

  /** The pool after slot i has become a new dentry, whose parent it keeps alive. */
  function AllocSlot(c: Cache, i: nat, name: string, parent: Option<nat>): Cache
    requires |c.used| == |c.pool| == POOL && i < POOL && (parent.Some? ==> parent.value < POOL)
  {
    var pool := c.pool[i := Dentry(1, name, parent, None, false, [])];
    Cache(c.used[i := true],
          match parent
          case Some(p) => pool[p := pool[p].(count := pool[p].count + 1)]
          case None => pool)
  }

  function AllocBooks(k: Books, i: nat, parent: Option<nat>): Books
    requires |k.holders| == |k.rank| == POOL && i < POOL && (parent.Some? ==> parent.value < POOL)
  {
    var r := if parent.Some? then k.rank[parent.value] + 1 else 0;
    Books(k.holders[i := 1], k.rank[i := r], if k.top < r + 1 then r + 1 else k.top)
  }

  lemma AllocKids(c: Cache, k: Books, i: nat, name: string, parent: Option<nat>)
    requires Inv(c, k) && i < POOL && !c.used[i] && (parent.Some? ==> Live(c, parent.value))
    ensures forall j :: 0 <= j < POOL && j != i ==>
              Kids(AllocSlot(c, i, name, parent), j) == if parent == Some(j) then Kids(c, j) + {i} else Kids(c, j)
    ensures Kids(AllocSlot(c, i, name, parent), i) == {}
  {
    forall j | 0 <= j < POOL && c.used[j]
      ensures c.pool[j].parent != Some(i)
    {
      assert Parented(c, k, j);
    }
  }

  lemma AllocKeeps(c: Cache, k: Books, i: nat, name: string, parent: Option<nat>)
    requires Inv(c, k) && i < POOL && !c.used[i] && (parent.Some? ==> Live(c, parent.value))
    ensures Inv(AllocSlot(c, i, name, parent), AllocBooks(k, i, parent))
  {
    hide Counted, Parented, Listed, Linked;
    var c', k' := AllocSlot(c, i, name, parent), AllocBooks(k, i, parent);
    forall j | 0 <= j < POOL
      ensures Counted(c', k', j) && k'.rank[j] < k'.top && Parented(c', k', j) && Listed(c', j) && Linked(c', j)
    {
      AllocCounted(c, k, i, name, parent, j);
      AllocLinked(c, k, i, name, parent, j);
    }
  }

  lemma AllocCounted(c: Cache, k: Books, i: nat, name: string, parent: Option<nat>, j: nat)
    requires Inv(c, k) && i < POOL && !c.used[i] && (parent.Some? ==> Live(c, parent.value)) && j < POOL
    ensures Counted(AllocSlot(c, i, name, parent), AllocBooks(k, i, parent), j)
    ensures AllocBooks(k, i, parent).rank[j] < AllocBooks(k, i, parent).top
  {
    hide Parented, Listed, Linked;
    AllocKids(c, k, i, name, parent);
    assert Counted(c, k, j);
    assert i !in Kids(c, j);
  }

  lemma AllocLinked(c: Cache, k: Books, i: nat, name: string, parent: Option<nat>, j: nat)
    requires Inv(c, k) && i < POOL && !c.used[i] && (parent.Some? ==> Live(c, parent.value)) && j < POOL
    ensures Parented(AllocSlot(c, i, name, parent), AllocBooks(k, i, parent), j)
    ensures Listed(AllocSlot(c, i, name, parent), j) && Linked(AllocSlot(c, i, name, parent), j)
  {
    hide Counted;
    AllocKids(c, k, i, name, parent);
    assert Parented(c, k, j) && Listed(c, j) && Linked(c, j);
    if c.used[j] && c.pool[j].listed {
      LinkedParent(c, k, j);
    }
  }

  /** d_instantiate */
  function FillSlot(c: Cache, d: nat, ino: nat): Cache
    requires |c.used| == |c.pool| == POOL && d < POOL
    requires c.pool[d].parent.Some? ==> c.pool[d].parent.value < POOL
  {
    var pool := c.pool[d := c.pool[d].(inode := Some(ino))];
    Cache(c.used,
          match pool[d].parent
          case Some(p) =>
            if pool[d].listed then pool
            else
              var linked := pool[d := pool[d].(listed := true)];
              linked[p := linked[p].(subdirs := [d] + linked[p].subdirs)]
          case None => pool)
  }

  /** What d_instantiate does: the dentry has the inode, and a dentry with a parent is linked, at the head of
      its parent's list unless it was there before; nothing else has changed. */
  ghost predicate FilledIn(c: Cache, c': Cache, d: nat, ino: nat)
    requires |c.used| == |c.pool| == |c'.used| == |c'.pool| == POOL && d < POOL
  {
    && c'.used == c.used
    && c'.pool[d] == c.pool[d].(inode := Some(ino), listed := c.pool[d].listed || c.pool[d].parent.Some?)
    && forall j :: 0 <= j < POOL && j != d ==>
                     c'.pool[j] == if c.pool[d].parent == Some(j) && !c.pool[d].listed
                                   then c.pool[j].(subdirs := [d] + c.pool[j].subdirs) else c.pool[j]
  }

  lemma FillLinks(c: Cache, k: Books, d: nat, ino: nat)
    requires Inv(c, k) && Live(c, d) && c.pool[d].parent != Some(d)
    ensures c.pool[d].parent.Some? ==> c.pool[d].parent.value < POOL
    ensures FilledIn(c, FillSlot(c, d, ino), d, ino)
  {
    assert Parented(c, k, d) && Linked(c, d);
  }

  lemma FillKeeps(c: Cache, k: Books, d: nat, ino: nat)
    requires Inv(c, k) && Live(c, d) && c.pool[d].parent != Some(d)
    ensures c.pool[d].parent.Some? ==> c.pool[d].parent.value < POOL
    ensures Inv(FillSlot(c, d, ino), k)
  {
    hide Counted, Listed, Linked;
    assert Parented(c, k, d);
    var c' := FillSlot(c, d, ino);
    forall j | 0 <= j < POOL
      ensures Counted(c', k, j) && Parented(c', k, j) && Listed(c', j) && Linked(c', j)
    {
      FillCounted(c, k, d, ino, j);
      FillListed(c, k, d, ino, j);
    }
  }

  lemma FillKids(c: Cache, d: nat, ino: nat, j: nat)
    requires |c.used| == |c.pool| == POOL && d < POOL && j < POOL
    requires c.pool[d].parent.Some? ==> c.pool[d].parent.value < POOL
    ensures Kids(FillSlot(c, d, ino), j) == Kids(c, j)
  {
  }

  lemma FillCounted(c: Cache, k: Books, d: nat, ino: nat, j: nat)
    requires Inv(c, k) && Live(c, d) && c.pool[d].parent != Some(d) && j < POOL
    requires c.pool[d].parent.Some? ==> c.pool[d].parent.value < POOL
    ensures Counted(FillSlot(c, d, ino), k, j) && Parented(FillSlot(c, d, ino), k, j)
  {
    hide Listed, Linked, Kids;
    FillKids(c, d, ino, j);
    assert Counted(c, k, j) && Parented(c, k, j);
  }

  lemma FillListed(c: Cache, k: Books, d: nat, ino: nat, j: nat)
    requires Inv(c, k) && Live(c, d) && c.pool[d].parent != Some(d) && j < POOL
    requires c.pool[d].parent.Some? ==> c.pool[d].parent.value < POOL
    ensures Listed(FillSlot(c, d, ino), j) && Linked(FillSlot(c, d, ino), j)
  {
    hide Counted;
    assert Parented(c, k, d) && Linked(c, d) && Listed(c, j) && Linked(c, j);
    FillKids(c, d, ino, j);
  }

  /** Lines 909-923 of fs/ext4/super.c: the root dentry, its own parent and in nobody's list. */
  function RootSlot(c: Cache, d: nat, ino: nat): Cache
    requires |c.used| == |c.pool| == POOL && d < POOL
  {
    Cache(c.used[d := true], c.pool[d := Dentry(1, "/", Some(d), Some(ino), false, [])])
  }

  lemma RootKeeps(c: Cache, k: Books, d: nat, ino: nat)
    requires Inv(c, k) && d < POOL && !c.used[d]
    ensures Inv(RootSlot(c, d, ino), AllocBooks(k, d, None))
  {
    AllocKeeps(c, k, d, "/", None);
    AllocKids(c, k, d, "/", None);
    var a, r, k' := AllocSlot(c, d, "/", None), RootSlot(c, d, ino), AllocBooks(k, d, None);
    forall j | 0 <= j < POOL
      ensures Kids(r, j) == Kids(a, j)
    {
    }
    forall j | 0 <= j < POOL
      ensures Counted(r, k', j) && Parented(r, k', j)
    {
      assert Counted(a, k', j) && Parented(a, k', j);
    }
    hide Counted;
    forall j | 0 <= j < POOL
      ensures Listed(r, j) && Linked(r, j)
    {
      assert Listed(a, j) && Linked(a, j);
    }
  }

  // ---------- the code ----------

  /** Fields other than count and list of children. */
  predicate SameDentry(x: Dentry, y: Dentry) {
    x.name == y.name && x.parent == y.parent && x.inode == y.inode && x.listed == y.listed
  }

  /** What d_put frees: nothing, or d and its ancestors up to the first that is still referred to. */
  ghost predicate FreedChain(c: Cache, c': Cache, chain: seq<nat>, d: nat)
    requires |c.used| == |c.pool| == |c'.used| == |c'.pool| == POOL
  {
    && (forall i :: 0 <= i < |chain| ==> chain[i] < POOL && c.used[chain[i]])
    && (forall i :: 0 <= i < |chain| ==>
        if i == 0 then chain[i] == d else c.pool[chain[i - 1]].parent == Some(chain[i]))
    && (forall j :: 0 <= j < POOL ==> (c'.used[j] <==> c.used[j] && j !in chain))
    && (forall j :: 0 <= j < POOL && c'.used[j] ==> SameDentry(c.pool[j], c'.pool[j]))
    && Stops(c, c', chain, d)
  }

  /** The dentry after the last one freed is still in use. */
  ghost predicate Stops(c: Cache, c': Cache, chain: seq<nat>, d: nat)
    requires |c.used| == |c.pool| == |c'.used| == |c'.pool| == POOL
    requires forall i :: 0 <= i < |chain| ==> chain[i] < POOL
  {
    if chain == [] then Live(c', d)
    else
      var last := chain[|chain| - 1];
      c.pool[last].parent.Some? && c.pool[last].parent != Some(last) ==> Live(c', c.pool[last].parent.value)
  }

  /** d is the first in the list of its parent that has this name. */
  ghost predicate FirstNamed(c: Cache, parent: nat, name: string, d: nat)
    requires |c.pool| == POOL && parent < POOL
  {
    exists i :: 0 <= i < |c.pool[parent].subdirs| && FirstNamedAt(c, parent, name, d, i)
  }

  ghost predicate FirstNamedAt(c: Cache, parent: nat, name: string, d: nat, i: nat)
    requires |c.pool| == POOL && parent < POOL && i < |c.pool[parent].subdirs|
  {
    && c.pool[parent].subdirs[i] == d && d < POOL && c.pool[d].name == name
    && forall j :: 0 <= j < i ==> c.pool[parent].subdirs[j] < POOL && c.pool[c.pool[parent].subdirs[j]].name != name
  }

  class Dentries {
    const used: array<bool>
    const pool: array<Dentry>
    ghost var k: Books

    /** The static pool before the first use. */
    constructor ()
      ensures Valid() && fresh(used) && fresh(pool) && forall i :: 0 <= i < POOL ==> !used[i]
    {
      used := new bool[POOL](_ => false);
      pool := new Dentry[POOL](_ => Dentry(0, "", None, None, false, []));
      k := Books(seq(POOL, _ => 0), seq(POOL, _ => 0), 1);
    }

    ghost function C(): Cache
      reads used, pool
    {
      Cache(used[..], pool[..])
    }

    ghost predicate Valid()
      reads this, used, pool
    {
      used.Length == pool.Length == POOL && Inv(C(), k)
    }

    /** d_alloc */
    method Alloc(parent: Option<nat>, name: string) returns (d: Option<nat>)
      requires Valid() && (parent.Some? ==> Live(C(), parent.value))
      modifies this, used, pool
      ensures Valid()
      ensures d.None? ==> C() == old(C()) && k == old(k)
      ensures d.None? <==> |name| >= INLINE_NAME || forall i :: 0 <= i < POOL ==> old(used[i])
      ensures d.Some? ==>
        && d.value < POOL && !old(used[d.value])
        && C() == AllocSlot(old(C()), d.value, name, parent) && k == AllocBooks(old(k), d.value, parent)
    {
      hide Inv;
      InvSized(C(), k);
      var i := 0;
      while i < POOL
        invariant 0 <= i <= POOL && C() == old(C()) && k == old(k)
        invariant forall j :: 0 <= j < i ==> used[j]
      {
        if !used[i] {
          if |name| >= INLINE_NAME {
            return None;
          }
          ghost var c := C();
          AllocKeeps(c, k, i, name, parent);
          used[i] := true;
          pool[i] := Dentry(1, name, parent, None, false, []);
          if parent.Some? {
            pool[parent.value] := pool[parent.value].(count := pool[parent.value].count + 1);
          }
          k := AllocBooks(k, i, parent);
          assert C() == AllocSlot(c, i, name, parent);
          return Some(i);
        }
        i := i + 1;
      }
      d := None;
    }

    /** d_lookup: the first match in the sibling list, with one more reference. */
    method Lookup(parent: nat, name: string) returns (d: Option<nat>)
      requires Valid() && Live(C(), parent)
      modifies this, pool
      ensures Valid()
      ensures d.None? ==> C() == old(C()) && k == old(k)
      ensures d.None? ==> forall j :: j in old(pool[parent]).subdirs ==> j < POOL && old(pool[j]).name != name
      ensures d.Some? ==>
        && d.value in old(pool[parent]).subdirs && d.value in Kids(old(C()), parent)
        && old(pool[d.value]).name == name && old(pool[d.value]).inode.Some?
        && FirstNamed(old(C()), parent, name, d.value)
        && C() == WithCount(old(C()), d.value, old(pool[d.value]).count + 1) && k == Hold(old(k), d.value)
    {
      assert Listed(C(), parent);
      var kids := pool[parent].subdirs;
      forall a | 0 <= a < |kids|
        ensures kids[a] in Kids(C(), parent)
      {
        assert kids[a] in kids;
      }
      var i := 0;
      while i < |kids|
        invariant 0 <= i <= |kids|
        invariant forall a :: 0 <= a < |kids| ==> kids[a] < POOL
        invariant forall a :: 0 <= a < i ==> pool[kids[a]].name != name
      {
        assert kids[i] in Kids(C(), parent);
        if pool[kids[i]].name == name {
          assert FirstNamedAt(C(), parent, name, kids[i], i);
          Get(kids[i]);
          return Some(kids[i]);
        }
        i := i + 1;
      }
      d := None;
    }

    /** dget */
    method Get(d: nat)
      requires Valid() && Live(C(), d)
      modifies this, pool
      ensures Valid() && C() == WithCount(old(C()), d, old(pool[d]).count + 1) && k == Hold(old(k), d)
    {
      CountHeld(C(), k, d, Hold(k, d), pool[d].count + 1);
      hide Inv;
      ghost var c := C();
      pool[d] := pool[d].(count := pool[d].count + 1);
      assert C() == WithCount(c, d, c.pool[d].count + 1);
      k := Hold(k, d);
    }

    /** d_instantiate */
    method Instantiate(d: nat, ino: nat)
      requires Valid() && Live(C(), d) && pool[d].parent != Some(d)
      modifies pool
      ensures Valid() && (old(pool[d]).parent.Some? ==> old(pool[d]).parent.value < POOL)
      ensures C() == FillSlot(old(C()), d, ino) && FilledIn(old(C()), C(), d, ino)
    {
      FillKeeps(C(), k, d, ino);
      FillLinks(C(), k, d, ino);
      hide Inv, FilledIn;
      ghost var c := C();
      pool[d] := pool[d].(inode := Some(ino));
      if pool[d].parent.Some? && !pool[d].listed {
        var p := pool[d].parent.value;
        pool[d] := pool[d].(listed := true);
        pool[p] := pool[p].(subdirs := [d] + pool[p].subdirs);
      }
      assert C() == FillSlot(c, d, ino);
    }

    /** The root dentry of a mounted file system: None when the pool is full. */
    method MakeRoot(ino: nat) returns (d: Option<nat>)
      requires Valid()
      modifies this, used, pool
      ensures Valid()
      ensures d.None? <==> forall i :: 0 <= i < POOL ==> old(used[i])
      ensures d.None? ==> C() == old(C()) && k == old(k)
      ensures d.Some? ==>
        && d.value < POOL && !old(used[d.value])
        && C() == RootSlot(old(C()), d.value, ino) && k == AllocBooks(old(k), d.value, None)
    {
      hide Inv;
      ghost var c, k0 := C(), k;
      d := Alloc(None, "/");
      if d.Some? {
        Instantiate(d.value, ino);
        pool[d.value] := pool[d.value].(parent := Some(d.value));
        RootKeeps(c, k0, d.value, ino);
        assert C() == RootSlot(c, d.value, ino);
      }
    }

    /** dput: one reference less, and everything freed that was kept alive by it alone. */
    method Put(d: nat) returns (ghost chain: seq<nat>)
      requires Valid() && Live(C(), d) && k.holders[d] >= 1
      modifies this, used, pool
      ensures Valid() && k == Drop(old(k), d)
      ensures FreedChain(old(C()), C(), chain, d)
      decreases k.rank[d]
    {
      hide Inv, FreedChain;
      ghost var c, k0 := C(), k;
      InvSized(c, k0);
      PutCases(c, k0, d);
      if pool[d].count > 0 {
        pool[d] := pool[d].(count := pool[d].count - 1);
      }
      chain := [];
      if pool[d].count == 0 {
        var parent := Unlink(d, c);
        k := Orphan(c, k0, d);
        FreeSlotKeeps(c, k0, d);
        if parent.Some? && parent.value != d {
          chain := Put(parent.value);
          ChainCons(c, C(), chain, d, parent.value);
        } else {
          ChainOne(c, C(), d);
          assert [d] + chain == [d];
        }
        chain := [d] + chain;
      } else {
        assert C() == WithCount(c, d, c.pool[d].count - 1);
        k := Drop(k0, d);
      }
    }

    /** Lines 143-176 */
    method Unlink(d: nat, ghost c: Cache) returns (parent: Option<nat>)
      requires used.Length == pool.Length == POOL && d < POOL && |c.used| == |c.pool| == POOL
      requires C() == WithCount(c, d, 0)
      requires pool[d].parent.Some? ==> pool[d].parent.value < POOL
      requires pool[d].parent == Some(d) ==> !pool[d].listed
      modifies used, pool
      ensures C() == FreeSlot(c, d) && parent == c.pool[d].parent
    {
      parent := pool[d].parent;
      if pool[d].listed && parent.Some? {
        pool[parent.value] := pool[parent.value].(subdirs := Without(pool[parent.value].subdirs, d));
      }
      pool[d] := pool[d].(parent := None, inode := None);
      used[d] := false;
      assert C() == FreeSlot(c, d);
    }
  }

  /** A dentry that has just been filled in is what a lookup of its name under its parent finds. */
  method FillThenFind(dc: Dentries, d: nat, ino: nat) returns (found: Option<nat>)
    requires dc.Valid() && Live(dc.C(), d) && !dc.pool[d].listed
    requires dc.pool[d].parent.Some? && dc.pool[d].parent != Some(d)
    modifies dc, dc.pool
    ensures dc.Valid() && found == Some(d) && dc.pool[d].inode == Some(ino)
  {
    ghost var c := dc.C();
    var p, name := dc.pool[d].parent.value, dc.pool[d].name;
    assert Parented(c, dc.k, d);
    dc.Instantiate(d, ino);
    found := dc.Lookup(p, name);
    assert FirstNamedAt(FillSlot(c, d, ino), p, name, d, 0);
  }

  lemma InvSized(c: Cache, k: Books)
    requires Inv(c, k)
    ensures Sized(c, k)
  {
  }

  /** One reference less: either others remain, or the dentry is idle. */
  lemma PutCases(c: Cache, k: Books, d: nat)
    requires Inv(c, k) && Live(c, d) && Sized(c, k) && k.holders[d] >= 1
    ensures c.pool[d].count >= 1 && (c.pool[d].count == 1 ==> Idle(c, k, d))
    ensures c.pool[d].count > 1 ==> Inv(WithCount(c, d, c.pool[d].count - 1), Drop(k, d))
    ensures c.pool[d].parent.Some? ==>
              var p := c.pool[d].parent.value;
              Live(c, p) && (p != d ==> k.rank[p] < k.rank[d]) && (p == d ==> !c.pool[d].listed)
    ensures c.pool[d].count > 1 ==> FreedChain(c, WithCount(c, d, c.pool[d].count - 1), [], d)
  {
    assert Counted(c, k, d) && Parented(c, k, d) && Linked(c, d) && Listed(c, d);
    if c.pool[d].count > 1 {
      CountHeld(c, k, d, Drop(k, d), c.pool[d].count - 1);
    }
    assert d !in Kids(c, d);
    assert d !in c.pool[d].subdirs;
  }

  lemma ChainOne(c: Cache, c': Cache, d: nat)
    requires |c.used| == |c.pool| == POOL && Live(c, d) && c' == FreeSlot(c, d)
    requires c.pool[d].parent.None? || c.pool[d].parent == Some(d)
    ensures FreedChain(c, c', [d], d)
  {
  }

  lemma ChainCons(c: Cache, c': Cache, chain: seq<nat>, d: nat, p: nat)
    requires |c.used| == |c.pool| == |c'.used| == |c'.pool| == POOL && Live(c, d)
    requires c.pool[d].parent == Some(p) && p != d && p < POOL
    requires FreedChain(FreeSlot(c, d), c', chain, p)
    ensures FreedChain(c, c', [d] + chain, d)
  {
    var c1, all := FreeSlot(c, d), [d] + chain;
    forall i | 0 <= i < |all|
      ensures all[i] < POOL && c.used[all[i]]
      ensures if i == 0 then all[i] == d else c.pool[all[i - 1]].parent == Some(all[i])
    {
      if i > 1 {
        assert c1.pool[chain[i - 2]].parent == Some(chain[i - 1]);
      }
    }
  }
}
