/**
 Path resolution (fs/namei.c) over the dentry cache.  The walk takes one reference on its result and
 none on failure, and it reaches the inode that a walk over the directories themselves reaches.
 The directories are a fixed map from inode numbers to their entries; reading an inode succeeds.
 */
module PathWalk {
  import opened Wrappers
  import opened Runs
  import opened Dcache
  import opened Components

  type Dirs = map<nat, map<string, nat>>

  // ---------- the walk without a cache ----------

  /** The inodes from the root down to a dentry. */
  type Stack = seq<Option<nat>>

  /** One step: a stack of inodes, so that ".." knows the way back; at the root it stays. */
  function StepOn(dirs: Dirs, st: Stack, name: string): Option<Stack>
    requires st != []
  {
    if name == "." then Some(st)
    else if name == ".." then Some(if |st| > 1 then st[..|st| - 1] else st)
    else
      match st[|st| - 1]
      case Some(dir) =>
        if dir in dirs && name in dirs[dir] then Some(st + [Some(dirs[dir][name])]) else None
      case None => None
  }

  function WalkOn(dirs: Dirs, st: Stack, names: seq<string>): (r: Option<Stack>)
    requires st != []
    ensures r.Some? ==> r.value != []
    decreases |names|
  {
    if names == [] then Some(st)
    else
      match StepOn(dirs, st, names[0])
      case Some(next) => WalkOn(dirs, next, names[1..])
      case None => None
  }

  /** The dentry cache has room for every one of these names. */
  predicate Inline(names: seq<string>) {
    forall i :: 0 <= i < |names| ==> |names[i]| < INLINE_NAME
  }

  /** The inodes from the root down to d in the cache. */
  ghost function StackOf(c: Cache, k: Books, d: nat): (st: Stack)
    requires Inv(c, k) && Live(c, d)
    ensures st != [] && st[|st| - 1] == c.pool[d].inode
    ensures c.pool[d].parent.None? || c.pool[d].parent == Some(d) ==> |st| == 1
    decreases k.rank[d]
  {
    assert Parented(c, k, d);
    match c.pool[d].parent
    case Some(p) => if p == d then [c.pool[d].inode] else StackOf(c, k, p) + [c.pool[d].inode]
    case None => [c.pool[d].inode]
  }

  /** Where a dentry is: the dentry at the top, and the names from there. */
  datatype Trail = Trail(root: nat, names: seq<string>)

  ghost function TrailOf(c: Cache, k: Books, d: nat): (t: Trail)
    requires Inv(c, k) && Live(c, d)
    ensures t.names == [] ==> t.root == d
    decreases k.rank[d]
  {
    assert Parented(c, k, d);
    match c.pool[d].parent
    case Some(p) =>
      if p == d then Trail(d, [])
      else var up := TrailOf(c, k, p); Trail(up.root, up.names + [c.pool[d].name])
    case None => Trail(d, [])
  }

  function TrailOn(t: Trail, name: string): Trail {
    if name == "." then t
    else if name == ".." then t.(names := if t.names == [] then [] else t.names[..|t.names| - 1])
    else t.(names := t.names + [name])
  }

  function TrailTo(t: Trail, names: seq<string>): Trail
    decreases |names|
  {
    if names == [] then t else TrailTo(TrailOn(t, names[0]), names[1..])
  }

  /** Two dentries with an inode, of the same name in the same directory. */
  predicate Twins(c: Cache, i: nat, j: nat)
    requires |c.used| == |c.pool| == POOL && i < POOL && j < POOL
  {
    && c.used[i] && c.used[j] && i != j && c.pool[i].parent.Some? && c.pool[i].parent == c.pool[j].parent
    && c.pool[i].parent != Some(i) && c.pool[i].parent != Some(j)
    && c.pool[i].inode.Some? && c.pool[j].inode.Some? && c.pool[i].name == c.pool[j].name
  }

  ghost predicate NamesApart(c: Cache)
    requires |c.used| == |c.pool| == POOL
  {
    forall i, j :: 0 <= i < POOL && 0 <= j < POOL ==> !Twins(c, i, j)
  }

  /** When no two dentries of a directory share a name, the place of a dentry tells which it is. */
  lemma {:induction false} OneDentry(c: Cache, k: Books, d: nat, e: nat, dirs: Dirs)
    requires Inv(c, k) && NamesApart(c) && AllConsistent(c, dirs) && Live(c, d) && Live(c, e)
    requires c.pool[d].inode.Some? && c.pool[e].inode.Some? && TrailOf(c, k, d) == TrailOf(c, k, e)
    ensures d == e
    decreases k.rank[d]
  {
    assert Parented(c, k, d) && Parented(c, k, e) && Consistent(c, dirs, d) && Consistent(c, dirs, e);
    var t := TrailOf(c, k, d);
    if t.names != [] {
      var p, q := c.pool[d].parent.value, c.pool[e].parent.value;
      assert TrailOf(c, k, p).names == t.names[..|t.names| - 1];
      OneDentry(c, k, p, q, dirs);
      assert !Twins(c, d, e);
    }
  }

  /** No child of cur that has an inode has this name. */
  ghost predicate NoChild(c: Cache, cur: nat, name: string)
    requires |c.used| == |c.pool| == POOL
  {
    forall j :: 0 <= j < POOL && c.used[j] && j != cur && c.pool[j].parent == Some(cur) && c.pool[j].inode.Some? ==>
                  c.pool[j].name != name
  }

  /** A lookup that finds nothing has seen every child that has an inode. */
  lemma NotCached(c: Cache, k: Books, cur: nat, name: string)
    requires Inv(c, k) && Live(c, cur)
    requires forall j :: j in c.pool[cur].subdirs ==> j < POOL && c.pool[j].name != name
    ensures NoChild(c, cur, name)
  {
    forall j | 0 <= j < POOL && c.used[j] && j != cur && c.pool[j].parent == Some(cur) && c.pool[j].inode.Some?
      ensures c.pool[j].name != name
    {
      assert Linked(c, j);
    }
  }

  /** No dentry in use that has an inode is at this place. */
  ghost predicate Nowhere(c: Cache, k: Books, t: Trail)
    requires Inv(c, k)
  {
    forall d :: 0 <= d < POOL && c.used[d] && c.pool[d].inode.Some? ==> TrailOf(c, k, d) != t
  }

  /** A cached entry is what its parent directory says. */
  ghost predicate Consistent(c: Cache, dirs: Dirs, j: nat)
    requires |c.used| == |c.pool| == POOL
  {
    Live(c, j) && c.pool[j].inode.Some? && c.pool[j].parent.Some? && c.pool[j].parent != Some(j) ==>
      && Live(c, c.pool[j].parent.value)
      && var dir := c.pool[c.pool[j].parent.value].inode;
      dir.Some? && dir.value in dirs && c.pool[j].name in dirs[dir.value] &&
      dirs[dir.value][c.pool[j].name] == c.pool[j].inode.value && |c.pool[j].name| < INLINE_NAME
  }

  ghost predicate AllConsistent(c: Cache, dirs: Dirs)
    requires |c.used| == |c.pool| == POOL
  {
    forall j :: 0 <= j < POOL ==> Consistent(c, dirs, j)
  }

  // ---------- what the pool looks like in between ----------

  /** What was in use still is, and as it was. */
  ghost predicate Grown(c0: Cache, c: Cache)
    requires |c0.used| == |c0.pool| == |c.used| == |c.pool| == POOL
  {
    forall i :: 0 <= i < POOL && c0.used[i] ==> c.used[i] && SameDentry(c0.pool[i], c.pool[i])
  }

  ghost predicate SameWhereBoth(c0: Cache, c: Cache)
    requires |c0.used| == |c0.pool| == |c.used| == |c.pool| == POOL
  {
    forall i :: 0 <= i < POOL && c0.used[i] && c.used[i] ==> SameDentry(c0.pool[i], c.pool[i])
  }

  /** As long as the outside references of a valid pool are still there, nothing of it has been freed:
      every dentry has one, or a child that has not been freed either. */
  lemma {:induction false} Survives(c0: Cache, k0: Books, c: Cache, k: Books, i: nat)
    requires Inv(c0, k0) && Inv(c, k) && SameWhereBoth(c0, c) && Live(c0, i)
    requires forall j :: 0 <= j < POOL ==> k0.holders[j] <= k.holders[j]
    ensures Live(c, i)
    decreases k0.top - k0.rank[i]
  {
    assert Counted(c0, k0, i) && Counted(c, k, i);
    if k0.holders[i] == 0 {
      assert |Kids(c0, i)| > 0;
      var j :| j in Kids(c0, i);
      assert Parented(c0, k0, j) && Parented(c, k, j);
      Survives(c0, k0, c, k, j);
    }
  }

  /** And once they are all that is left, everything else has been freed. */
  lemma {:induction false} Vanished(c0: Cache, k0: Books, c: Cache, k: Books, i: nat)
    requires Inv(c0, k0) && Inv(c, k) && Grown(c0, c) && k.holders == k0.holders && Live(c, i)
    ensures Live(c0, i)
    decreases k.top - k.rank[i]
  {
    assert Counted(c, k, i) && Counted(c0, k0, i);
    if !c0.used[i] {
      assert |Kids(c, i)| > 0;
      var j :| j in Kids(c, i);
      assert Parented(c, k, j);
      Vanished(c0, k0, c, k, j);
      assert Parented(c0, k0, j);
    }
  }

  /** With the same outside references the pool is the same: the same dentries, with the same counts and
      the same children. */
  lemma Restored(c0: Cache, k0: Books, c: Cache, k: Books)
    requires Inv(c0, k0) && Inv(c, k) && Grown(c0, c) && k.holders == k0.holders
    ensures c.used == c0.used
    ensures forall i :: 0 <= i < POOL && c0.used[i] ==>
              && SameDentry(c0.pool[i], c.pool[i]) && c.pool[i].count == c0.pool[i].count
              && forall j :: j in c.pool[i].subdirs <==> j in c0.pool[i].subdirs
  {
    forall i | 0 <= i < POOL
      ensures c.used[i] == c0.used[i]
    {
      if c.used[i] {
        Vanished(c0, k0, c, k, i);
      }
    }
    assert c.used == c0.used;
    forall i | 0 <= i < POOL && c0.used[i]
      ensures c.pool[i].count == c0.pool[i].count
      ensures forall j :: j in c.pool[i].subdirs <==> j in c0.pool[i].subdirs
    {
      assert Kids(c, i) == Kids(c0, i);
      assert Counted(c, k, i) && Counted(c0, k0, i);
      SubdirsAre(c, k, i);
      SubdirsAre(c0, k0, i);
    }
  }

  lemma SubdirsAre(c: Cache, k: Books, i: nat)
    requires Inv(c, k) && Live(c, i)
    ensures forall j :: j in c.pool[i].subdirs <==> j in Kids(c, i) && c.pool[j].listed
  {
    assert Listed(c, i);
    forall j | j in Kids(c, i) && c.pool[j].listed
      ensures j in c.pool[i].subdirs
    {
      assert Linked(c, j);
    }
  }

  /** A dentry that both pools have leads up through the same inodes and names. */
  lemma {:induction false} StackSame(c0: Cache, k0: Books, c: Cache, k: Books, d: nat)
    requires Inv(c0, k0) && Inv(c, k) && SameWhereBoth(c0, c) && Live(c0, d) && Live(c, d)
    ensures StackOf(c, k, d) == StackOf(c0, k0, d) && TrailOf(c, k, d) == TrailOf(c0, k0, d)
    decreases k0.rank[d]
  {
    assert Parented(c0, k0, d) && Parented(c, k, d);
    if c0.pool[d].parent.Some? && c0.pool[d].parent != Some(d) {
      StackSame(c0, k0, c, k, c0.pool[d].parent.value);
    }
  }

  function Plus(h: seq<nat>, i: nat): seq<nat>
    requires i < |h|
  {
    h[i := h[i] + 1]
  }

  /** The walk stands at cur: since (c0, k0) it has taken one reference, on cur. */
  ghost predicate OnWay(c0: Cache, k0: Books, c: Cache, k: Books, cur: nat, dirs: Dirs) {
    && Inv(c0, k0) && Inv(c, k) && Grown(c0, c) && AllConsistent(c, dirs) && (NamesApart(c0) ==> NamesApart(c))
    && Live(c, cur) && c.pool[cur].inode.Some? && k.holders == Plus(k0.holders, cur)
  }

  /** The walk has given up: no reference is left. */
  ghost predicate GivenUp(c0: Cache, k0: Books, c: Cache, k: Books, dirs: Dirs) {
    && Inv(c0, k0) && Inv(c, k) && Grown(c0, c) && AllConsistent(c, dirs) && (NamesApart(c0) ==> NamesApart(c))
    && k.holders == k0.holders
  }

  /** Half way through a step: also a reference on child. */
  ghost predicate Between(c0: Cache, k0: Books, c: Cache, k: Books, cur: nat, child: nat, dirs: Dirs) {
    && Inv(c0, k0) && Inv(c, k) && Grown(c0, c) && AllConsistent(c, dirs) && (NamesApart(c0) ==> NamesApart(c))
    && Live(c, cur) && Live(c, child) && k.holders == Plus(Plus(k0.holders, cur), child)
  }

  /** Dropping a reference that was taken on the way leaves the pool grown and consistent. */
  lemma PutKeeps(c0: Cache, k0: Books, c: Cache, k: Books, c': Cache, k': Books, chain: seq<nat>, d: nat, dirs: Dirs)
    requires Inv(c0, k0) && Inv(c, k) && Inv(c', k') && Grown(c0, c) && AllConsistent(c, dirs)
    requires FreedChain(c, c', chain, d)
    requires forall j :: 0 <= j < POOL ==> k0.holders[j] <= k'.holders[j]
    ensures Grown(c0, c') && AllConsistent(c', dirs) && SameWhereBoth(c, c') && (NamesApart(c) ==> NamesApart(c'))
  {
    assert SameWhereBoth(c0, c');
    forall i | 0 <= i < POOL && c0.used[i]
      ensures c'.used[i]
    {
      Survives(c0, k0, c', k', i);
    }
    forall j | 0 <= j < POOL
      ensures Consistent(c', dirs, j)
    {
      assert Consistent(c, dirs, j) && Parented(c', k', j);
    }
    ApartStays(c, c');
  }

  lemma ApartStays(c: Cache, c': Cache)
    requires |c.used| == |c.pool| == |c'.used| == |c'.pool| == POOL
    requires forall j :: 0 <= j < POOL && c'.used[j] && c'.pool[j].inode.Some? ==>
                           c.used[j] && SameDentry(c.pool[j], c'.pool[j])
    ensures NamesApart(c) ==> NamesApart(c')
  {
    if NamesApart(c) {
      forall i, j | 0 <= i < POOL && 0 <= j < POOL
        ensures !Twins(c', i, j)
      {
        assert !Twins(c, i, j);
      }
    }
  }

  /** A referenced dentry is in use. */
  lemma HeldLive(c: Cache, k: Books, i: nat)
    requires Inv(c, k) && i < POOL && k.holders[i] > 0
    ensures Live(c, i)
  {
    assert Counted(c, k, i);
  }

  lemma GetKeeps(c0: Cache, k0: Books, c: Cache, k: Books, cur: nat, d: nat, dirs: Dirs)
    requires OnWay(c0, k0, c, k, cur, dirs) && Live(c, d)
    requires Inv(WithCount(c, d, c.pool[d].count + 1), Hold(k, d))
    ensures Between(c0, k0, WithCount(c, d, c.pool[d].count + 1), Hold(k, d), cur, d, dirs)
    ensures SameWhereBoth(c, WithCount(c, d, c.pool[d].count + 1))
  {
    var c' := WithCount(c, d, c.pool[d].count + 1);
    forall j | 0 <= j < POOL
      ensures Consistent(c', dirs, j)
    {
      assert Consistent(c, dirs, j);
    }
    ApartStays(c, c');
  }

  lemma AllocKeepsWay(c0: Cache, k0: Books, c: Cache, k: Books, cur: nat, i: nat, name: string, dirs: Dirs)
    requires OnWay(c0, k0, c, k, cur, dirs) && i < POOL && !c.used[i]
    requires Inv(AllocSlot(c, i, name, Some(cur)), AllocBooks(k, i, Some(cur)))
    ensures Between(c0, k0, AllocSlot(c, i, name, Some(cur)), AllocBooks(k, i, Some(cur)), cur, i, dirs)
    ensures SameWhereBoth(c, AllocSlot(c, i, name, Some(cur)))
    ensures NoChild(c, cur, name) ==> NoChild(AllocSlot(c, i, name, Some(cur)), cur, name)
  {
    var c' := AllocSlot(c, i, name, Some(cur));
    assert Counted(c, k, i) && Counted(c0, k0, i);
    forall j | 0 <= j < POOL
      ensures Consistent(c', dirs, j)
    {
      assert Consistent(c, dirs, j) && Parented(c, k, j);
    }
    ApartStays(c, c');
  }

  /** Filling in the new dentry with what its directory says. */
  lemma FillKeepsWay(c0: Cache, k0: Books, c: Cache, k: Books, cur: nat, d: nat, ino: nat, dirs: Dirs)
    requires Between(c0, k0, c, k, cur, d, dirs) && !c0.used[d] && c.pool[d].parent == Some(cur) && cur != d
    requires c.pool[d].inode == None && !c.pool[d].listed && Inv(FillSlot(c, d, ino), k)
    requires c.pool[cur].inode.Some? && |c.pool[d].name| < INLINE_NAME && NoChild(c, cur, c.pool[d].name)
    requires var dir := c.pool[cur].inode.value;
             dir in dirs && c.pool[d].name in dirs[dir] && dirs[dir][c.pool[d].name] == ino
    ensures Between(c0, k0, FillSlot(c, d, ino), k, cur, d, dirs)
  {
    var c' := FillSlot(c, d, ino);
    forall j | 0 <= j < POOL
      ensures Consistent(c', dirs, j)
    {
      assert Consistent(c, dirs, j) && Parented(c, k, j);
    }
    if NamesApart(c) {
      forall i, j | 0 <= i < POOL && 0 <= j < POOL
        ensures !Twins(c', i, j)
      {
        assert !Twins(c, i, j);
      }
    }
  }

  /** The dentries in use. */
  ghost function LiveSet(c: Cache): set<nat>
    requires |c.used| == POOL
  {
    set i | 0 <= i < POOL && c.used[i]
  }

  lemma FreedLess(c: Cache, c': Cache, chain: seq<nat>, d: nat)
    requires |c.used| == |c.pool| == |c'.used| == |c'.pool| == POOL && FreedChain(c, c', chain, d)
    ensures LiveSet(c') <= LiveSet(c)
  {
  }

  lemma NewLive(c: Cache, i: nat, name: string, p: nat)
    requires |c.used| == |c.pool| == POOL && i < POOL && p < POOL
    ensures LiveSet(AllocSlot(c, i, name, Some(p))) == LiveSet(c) + {i}
  {
  }

  lemma AllLive(c: Cache)
    requires |c.used| == POOL && forall i :: 0 <= i < POOL ==> c.used[i]
    ensures |LiveSet(c)| == POOL
  {
    FirstLive(c, POOL);
  }

  lemma {:induction false} FirstLive(c: Cache, n: nat)
    requires |c.used| == POOL && n <= POOL && forall i :: 0 <= i < POOL ==> c.used[i]
    ensures |set i | 0 <= i < n && c.used[i]| == n
  {
    if n > 0 {
      FirstLive(c, n - 1);
      assert (set i | 0 <= i < n && c.used[i]) == (set i | 0 <= i < n - 1 && c.used[i]) + {n - 1};
    }
  }

  class Walker {
    const dc: Dentries
    const dirs: Dirs

    constructor (dc: Dentries, dirs: Dirs)
      ensures this.dc == dc && this.dirs == dirs
    {
      this.dc, this.dirs := dc, dirs;
    }

    /** The current dentry gives way to child. */
    method Advance(cur: nat, child: nat, ghost c0: Cache, ghost k0: Books)
      requires dc.Valid() && Between(c0, k0, dc.C(), dc.k, cur, child, dirs) && dc.pool[child].inode.Some?
      modifies dc, dc.used, dc.pool
      ensures dc.Valid() && OnWay(c0, k0, dc.C(), dc.k, child, dirs)
      ensures StackOf(dc.C(), dc.k, child) == old(StackOf(dc.C(), dc.k, child))
      ensures TrailOf(dc.C(), dc.k, child) == old(TrailOf(dc.C(), dc.k, child))
      ensures LiveSet(dc.C()) <= old(LiveSet(dc.C()))
    {
      hide Inv, Grown, AllConsistent, SameWhereBoth, FreedChain, StackOf, TrailOf, NamesApart;
      ghost var c, k := dc.C(), dc.k;
      InvSized(c0, k0);
      HoldsBoth(k0, k, cur, child);
      ghost var chain := dc.Put(cur);
      DroppedOne(k0, k, cur, child);
      PutKeeps(c0, k0, c, k, dc.C(), dc.k, chain, cur, dirs);
      HeldLive(dc.C(), dc.k, child);
      StackSame(c, k, dc.C(), dc.k, child);
      ChainSame(c, dc.C(), chain, cur, child);
      FreedLess(c, dc.C(), chain, cur);
    }

    /** The walk ends without a result. */
    method GiveUp(cur: nat, ghost c0: Cache, ghost k0: Books)
      requires dc.Valid() && OnWay(c0, k0, dc.C(), dc.k, cur, dirs)
      modifies dc, dc.used, dc.pool
      ensures dc.Valid() && GivenUp(c0, k0, dc.C(), dc.k, dirs)
    {
      hide Inv, Grown, AllConsistent, SameWhereBoth, FreedChain, NamesApart;
      ghost var c, k := dc.C(), dc.k;
      InvSized(c0, k0);
      HoldsOne(k0, k, cur);
      ghost var chain := dc.Put(cur);
      DroppedLast(k0, k, cur);
      PutKeeps(c0, k0, c, k, dc.C(), dc.k, chain, cur, dirs);
    }

    /** A child without inode is put, and then the current dentry. */
    method GiveUpBoth(cur: nat, child: nat, ghost c0: Cache, ghost k0: Books)
      requires dc.Valid() && Between(c0, k0, dc.C(), dc.k, cur, child, dirs) && dc.pool[cur].inode.Some?
      modifies dc, dc.used, dc.pool
      ensures dc.Valid() && GivenUp(c0, k0, dc.C(), dc.k, dirs)
    {
      hide Inv, Grown, AllConsistent, SameWhereBoth, FreedChain, NamesApart;
      ghost var c, k := dc.C(), dc.k;
      InvSized(c0, k0);
      HoldsBoth(k0, k, cur, child);
      ghost var chain := dc.Put(child);
      DroppedOther(k0, k, cur, child);
      PutKeeps(c0, k0, c, k, dc.C(), dc.k, chain, child, dirs);
      HeldLive(dc.C(), dc.k, cur);
      ChainSame(c, dc.C(), chain, child, cur);
      GiveUp(cur, c0, k0);
    }

    /** The component "..": the parent, if there is one. */
    method Up(cur: nat, ghost c0: Cache, ghost k0: Books) returns (next: nat)
      requires dc.Valid() && OnWay(c0, k0, dc.C(), dc.k, cur, dirs)
      modifies dc, dc.used, dc.pool
      ensures dc.Valid() && OnWay(c0, k0, dc.C(), dc.k, next, dirs)
      ensures StepOn(dirs, old(StackOf(dc.C(), dc.k, cur)), "..") == Some(StackOf(dc.C(), dc.k, next))
      ensures TrailOf(dc.C(), dc.k, next) == TrailOn(old(TrailOf(dc.C(), dc.k, cur)), "..")
      ensures LiveSet(dc.C()) <= old(LiveSet(dc.C()))
    {
      hide Inv, Grown, AllConsistent, SameWhereBoth, StackOf, TrailOf, Consistent, NamesApart, NoChild;
      ghost var c, k := dc.C(), dc.k;
      InvSized(c, k);
      ParentOf(c, k, cur, dirs);
      next := cur;
      if dc.pool[cur].parent.Some? {
        var p := dc.pool[cur].parent.value;
        dc.Get(p);
        GetKeeps(c0, k0, c, k, cur, p, dirs);
        StackSame(c, k, dc.C(), dc.k, p);
        Advance(cur, p, c0, k0);
        next := p;
      }
    }

    /** A name that the cache does not have: a new dentry, filled in by ext4_lookup if the directory has
        the name. */
    method Miss(cur: nat, name: string, ghost c0: Cache, ghost k0: Books) returns (child: Option<nat>)
      requires dc.Valid() && OnWay(c0, k0, dc.C(), dc.k, cur, dirs) && dc.pool[cur].inode.value in dirs
      requires NoChild(dc.C(), cur, name)
      modifies dc, dc.used, dc.pool
      ensures dc.Valid()
      ensures child.None? ==> OnWay(c0, k0, dc.C(), dc.k, cur, dirs) && dc.C() == old(dc.C())
      ensures child.None? ==> |name| >= INLINE_NAME || forall i :: 0 <= i < POOL ==> old(dc.used[i])
      ensures child.Some? ==> LiveSet(dc.C()) == old(LiveSet(dc.C())) + {child.value}
      ensures child.Some? ==>
        && child.value != cur && Between(c0, k0, dc.C(), dc.k, cur, child.value, dirs) && |name| < INLINE_NAME
        && dc.pool[cur].inode == old(dc.pool[cur].inode)
        && dc.pool[child.value].parent == Some(cur) && dc.pool[child.value].name == name
        && SameWhereBoth(old(dc.C()), dc.C())
        && dc.pool[child.value].inode ==
           if name in dirs[dc.pool[cur].inode.value] then Some(dirs[dc.pool[cur].inode.value][name]) else None
    {
      hide Inv, Grown, AllConsistent, SameWhereBoth, StackOf, TrailOf, Consistent, NamesApart, NoChild;
      ghost var c, k := dc.C(), dc.k;
      InvSized(c, k);
      InvSized(c0, k0);
      child := dc.Alloc(Some(cur), name);
      if child.None? {
        return;
      }
      var d := child.value;
      AllocKeepsWay(c0, k0, c, k, cur, d, name, dirs);
      NewSlot(c0, c, d);
      NewLive(c, d, name, cur);
      var dir := dc.pool[cur].inode.value;
      if name in dirs[dir] {
        ghost var c1 := dc.C();
        dc.Instantiate(d, dirs[dir][name]);
        FillKeepsWay(c0, k0, c1, dc.k, cur, d, dirs[dir][name], dirs);
        FillSame(c, c1, d, dirs[dir][name]);
      }
    }

    /** An ordinary component: the cached child, or a new one, becomes the current dentry. */
    method Down(cur: nat, name: string, ghost c0: Cache, ghost k0: Books) returns (next: Option<nat>, ghost full: bool)
      requires dc.Valid() && OnWay(c0, k0, dc.C(), dc.k, cur, dirs) && name != "." && name != ".."
      modifies dc, dc.used, dc.pool
      ensures dc.Valid()
      ensures next.Some? ==>
        && OnWay(c0, k0, dc.C(), dc.k, next.value, dirs)
        && StepOn(dirs, old(StackOf(dc.C(), dc.k, cur)), name) == Some(StackOf(dc.C(), dc.k, next.value))
        && TrailOf(dc.C(), dc.k, next.value) == TrailOn(old(TrailOf(dc.C(), dc.k, cur)), name)
        && |name| < INLINE_NAME
      ensures next.None? ==> GivenUp(c0, k0, dc.C(), dc.k, dirs)
      ensures next.None? && !full ==>
        StepOn(dirs, old(StackOf(dc.C(), dc.k, cur)), name) == None || INLINE_NAME <= |name|
      ensures full ==> |old(LiveSet(dc.C()))| == POOL
      ensures full && NamesApart(c0) ==> Nowhere(c0, k0, TrailOn(old(TrailOf(dc.C(), dc.k, cur)), name))
      ensures next.Some? ==> |LiveSet(dc.C())| <= |old(LiveSet(dc.C()))| + 1
    {
      hide Inv, Grown, AllConsistent, SameWhereBoth, StackOf, TrailOf, Consistent, NamesApart, NoChild, LiveSet;
      full := false;
      ghost var c, k := dc.C(), dc.k;
      InvSized(c, k);
      var dir := dc.pool[cur].inode;
      if dir.value !in dirs {
        GiveUp(cur, c0, k0);
        return None, full;
      }
      var child := dc.Lookup(cur, name);
      if child.Some? {
        GetKeeps(c0, k0, c, k, cur, child.value, dirs);
        ChildStack(c, k, dc.C(), dc.k, cur, child.value, dirs);
        SameLive(c, dc.C());
        Advance(cur, child.value, c0, k0);
        SizeLe(multiset(LiveSet(dc.C())), multiset(LiveSet(c)));
        return child, full;
      }
      NotCached(c, k, cur, name);
      child := Miss(cur, name, c0, k0);
      if child.None? {
        full := |name| < INLINE_NAME;
        if full {
          AllLive(c);
          NotThere(c0, k0, c, k, cur, name, dirs);
        }
        GiveUp(cur, c0, k0);
        return None, full;
      }
      if dc.pool[child.value].inode.None? {
        GiveUpBoth(cur, child.value, c0, k0);
        return None, full;
      }
      ChildStack(c, k, dc.C(), dc.k, cur, child.value, dirs);
      Advance(cur, child.value, c0, k0);
      SizeLe(multiset(LiveSet(dc.C())), multiset(LiveSet(c) + {child.value}));
      next := child;
    }

    /** vfs_path_lookup.  On success one more reference, on the result; on failure none.  Unless the pool
        runs out of dentries, which it does not while one is free for each name in the path, it succeeds
        exactly if the walk over the directories does and no name has 32 bytes or more, and the result is
        what that walk gives. */
    method PathLookup(start: nat, path: string) returns (result: Option<nat>, ghost full: bool)
      requires dc.Valid() && Live(dc.C(), start) && AllConsistent(dc.C(), dirs)
      modifies dc, dc.used, dc.pool
      ensures dc.Valid() && |old(dc.k).holders| == POOL
      ensures result.Some? ==>
        && OnWay(old(dc.C()), old(dc.k), dc.C(), dc.k, result.value, dirs)
        && WalkOn(dirs, old(StackOf(dc.C(), dc.k, start)), Names(path, 0)) == Some(StackOf(dc.C(), dc.k, result.value))
        && TrailOf(dc.C(), dc.k, result.value) == TrailTo(old(TrailOf(dc.C(), dc.k, start)), Names(path, 0))
        && Inline(Names(path, 0))
      ensures result.None? ==> GivenUp(old(dc.C()), old(dc.k), dc.C(), dc.k, dirs)
      ensures old(dc.pool[start].inode).None? ==> result.None? && !full
      ensures result.None? && !full && old(dc.pool[start].inode).Some? ==>
        WalkOn(dirs, old(StackOf(dc.C(), dc.k, start)), Names(path, 0)) == None || !Inline(Names(path, 0))
      ensures full ==> |old(LiveSet(dc.C()))| + |Names(path, 0)| > POOL
      ensures full && old(NamesApart(dc.C())) ==>
        exists i :: 0 < i <= |Names(path, 0)| &&
                    old(Nowhere(dc.C(), dc.k, TrailTo(TrailOf(dc.C(), dc.k, start), Names(path, 0)[..i])))
    {
      hide Inv, Grown, AllConsistent, SameWhereBoth, StackOf, TrailOf, Consistent, NamesApart, NoChild, Names, LiveSet;
      hide WalkOn, TrailTo, TrailOn, Inline, Nowhere;
      full := false;
      ghost var c0, k0 := dc.C(), dc.k;
      InvSized(c0, k0);
      GrownSelf(c0);
      if dc.pool[start].inode.None? {
        return None, full;
      }
      dc.Get(start);
      StartWay(c0, k0, start, dirs, dc.C(), dc.k);
      SameLive(c0, dc.C());
      ghost var st, tr := StackOf(c0, k0, start), TrailOf(c0, k0, start);
      var cur := start;
      var p := Skip(path, 0);
      SkipNames(path, 0);
      ghost var done, all := 0, Names(path, 0);
      NoneYet(tr, all);
      while p < |path|
        invariant p <= |path| && dc.Valid() && OnWay(c0, k0, dc.C(), dc.k, cur, dirs) && !full
        invariant p == |path| ==> Names(path, p) == []
        invariant WalkOn(dirs, st, Names(path, 0)) == WalkOn(dirs, StackOf(dc.C(), dc.k, cur), Names(path, p))
        invariant done <= |all| && Names(path, p) == all[done..]
        invariant TrailTo(tr, all[..done]) == TrailOf(dc.C(), dc.k, cur)
        invariant Inline(Names(path, 0)) <==> Inline(Names(path, p))
        invariant |LiveSet(dc.C())| + |Names(path, p)| <= |LiveSet(c0)| + |Names(path, 0)|
        decreases |path| - p
      {
        var name, q := NextName(path, p);
        if name.None? {
          break;
        }
        WalkStep(dirs, StackOf(dc.C(), dc.k, cur), name.value, Names(path, q));
        InlineStep(name.value, Names(path, q));
        TrailNext(tr, all, done, name.value, Names(path, q));
        done := done + 1;
        if name.value == "." {
        } else if name.value == ".." {
          ghost var c := dc.C();
          cur := Up(cur, c0, k0);
          SizeLe(multiset(LiveSet(dc.C())), multiset(LiveSet(c)));
        } else {
          var next;
          next, full := Down(cur, name.value, c0, k0);
          if next.None? {
            return None, full;
          }
          full := false;
          cur := next.value;
        }
        p := Skip(path, q);
        SkipNames(path, q);
      }
      result := Some(cur);
      AllNames(dirs, StackOf(dc.C(), dc.k, cur), all, done);
    }
  }

  // ---------- paths in parts, and paths walked again ----------

  lemma {:induction false} WalkJoin(dirs: Dirs, st: Stack, a: seq<string>, b: seq<string>)
    requires st != []
    ensures WalkOn(dirs, st, a + b) ==
            match WalkOn(dirs, st, a)
            case Some(mid) => WalkOn(dirs, mid, b)
            case None => None
    decreases |a|
  {
    if a == [] {
      assert a + b == b;
    } else {
      assert a == [a[0]] + a[1..] && a + b == [a[0]] + (a[1..] + b);
      WalkStep(dirs, st, a[0], a[1..] + b);
      WalkStep(dirs, st, a[0], a[1..]);
      match StepOn(dirs, st, a[0])
      case Some(next) => WalkJoin(dirs, next, a[1..], b);
      case None =>
    }
  }

  lemma {:induction false} TrailJoin(t: Trail, a: seq<string>, b: seq<string>)
    ensures TrailTo(t, a + b) == TrailTo(TrailTo(t, a), b)
    decreases |a|
  {
    if a == [] {
      assert a + b == b;
    } else {
      assert a + b == [a[0]] + (a[1..] + b);
      TrailStep(t, a[0], a[1..] + b);
      TrailJoin(TrailOn(t, a[0]), a[1..], b);
    }
  }

  lemma NoneYet(t: Trail, all: seq<string>)
    ensures all[0..] == all && TrailTo(t, all[..0]) == t && Inline([])
  {
  }

  /** One name more of a path has been walked. */
  lemma TrailNext(t: Trail, all: seq<string>, done: nat, name: string, rest: seq<string>)
    requires done <= |all| && all[done..] == [name] + rest
    ensures done < |all| && all[done + 1..] == rest
    ensures TrailTo(t, all[..done + 1]) == TrailOn(TrailTo(t, all[..done]), name)
    ensures name == "." ==> TrailOn(TrailTo(t, all[..done]), name) == TrailTo(t, all[..done])
  {
    assert |all[done..]| > 0 && all[done..][0] == name && all[done..][1..] == rest;
    assert all[..done + 1] == all[..done] + [name];
    TrailJoin(t, all[..done], [name]);
    TrailStep(TrailTo(t, all[..done]), name, []);
  }

  lemma AllNames(dirs: Dirs, st: Stack, all: seq<string>, done: nat)
    requires st != [] && done <= |all| && all[done..] == []
    ensures done == |all| && all[..done] == all && WalkOn(dirs, st, []) == Some(st) && Inline([])
  {
  }

  /** The path s/t leads where t leads from where s leads. */
  lemma JoinedPath(dirs: Dirs, st: Stack, tr: Trail, s: string, t: string)
    requires st != []
    ensures WalkOn(dirs, st, Names(s + "/" + t, 0)) ==
            match WalkOn(dirs, st, Names(s, 0))
            case Some(mid) => WalkOn(dirs, mid, Names(t, 0))
            case None => None
    ensures TrailTo(tr, Names(s + "/" + t, 0)) == TrailTo(TrailTo(tr, Names(s, 0)), Names(t, 0))
    ensures Inline(Names(s + "/" + t, 0)) <==> Inline(Names(s, 0)) && Inline(Names(t, 0))
  {
    hide Names, WalkOn, TrailTo, Inline;
    NamesJoin(s, t, 0);
    var a, b := Names(s, 0), Names(t, 0);
    WalkJoin(dirs, st, a, b);
    TrailJoin(tr, a, b);
    InlineJoin(a, b);
  }

  lemma InlineJoin(a: seq<string>, b: seq<string>)
    ensures Inline(a + b) <==> Inline(a) && Inline(b)
  {
    if Inline(a + b) {
      forall i | 0 <= i < |a|
        ensures |a[i]| < INLINE_NAME
      {
        assert (a + b)[i] == a[i];
      }
      forall i | 0 <= i < |b|
        ensures |b[i]| < INLINE_NAME
      {
        assert (a + b)[|a| + i] == b[i];
      }
    }
  }

  /** Looking a path up in one go and in two parts: both succeed or both fail, they end at the same inodes,
      and while the first result is held the second is that very dentry. */
  method LookupInParts(w: Walker, start: nat, s: string, t: string)
    returns (whole: Option<nat>, half: Option<nat>, rest: Option<nat>, ghost full: bool)
    requires w.dc.Valid() && Live(w.dc.C(), start) && AllConsistent(w.dc.C(), w.dirs)
    modifies w.dc, w.dc.used, w.dc.pool
    ensures w.dc.Valid()
    ensures !full ==> (whole.Some? <==> half.Some? && rest.Some?)
    ensures whole.Some? && rest.Some? ==>
      && Live(w.dc.C(), whole.value) && Live(w.dc.C(), rest.value)
      && StackOf(w.dc.C(), w.dc.k, whole.value) == StackOf(w.dc.C(), w.dc.k, rest.value)
      && (NamesApart(old(w.dc.C())) ==> rest == whole)
  {
    hide Inv, Grown, AllConsistent, StackOf, TrailOf, NamesApart, Names, Inline, WalkOn, TrailTo, LiveSet;
    var dc := w.dc;
    ghost var c0, k0 := dc.C(), dc.k;
    ghost var st, tr := StackOf(c0, k0, start), TrailOf(c0, k0, start);
    JoinedPath(w.dirs, st, tr, s, t);
    whole, full := w.PathLookup(start, s + "/" + t);
    ghost var c1, k1 := dc.C(), dc.k;
    StillThere(c0, k0, c1, k1, start);
    ghost var some;
    half, some := w.PathLookup(start, s);
    full := full || some;
    ghost var c2, k2 := dc.C(), dc.k;
    if whole.Some? {
      StillThere(c1, k1, c2, k2, whole.value);
    }
    if half.None? {
      return whole, half, None, full;
    }
    rest, some := w.PathLookup(half.value, t);
    full := full || some;
    ghost var c3, k3 := dc.C(), dc.k;
    if whole.Some? {
      StillThere(c2, k2, c3, k3, whole.value);
    }
    if whole.Some? && rest.Some? && NamesApart(c0) {
      OneDentry(c3, k3, whole.value, rest.value, w.dirs);
    }
  }

  /** A second walk over a path whose result is held gives the same dentry, with a reference more; only a path
      with ".." in it may find the pool full. */
  method LookupAgain(w: Walker, start: nat, path: string)
    returns (first: Option<nat>, second: Option<nat>, ghost full: bool)
    requires w.dc.Valid() && Live(w.dc.C(), start) && AllConsistent(w.dc.C(), w.dirs) && NamesApart(w.dc.C())
    modifies w.dc, w.dc.used, w.dc.pool
    ensures w.dc.Valid()
    ensures first.Some? ==> second == first || full
    ensures first.Some? && full ==> ".." in Names(path, 0)
    ensures first.Some? && !full ==>
      && |old(w.dc.k).holders| == POOL && first.value < POOL
      && w.dc.k.holders == Plus(Plus(old(w.dc.k).holders, first.value), first.value)
  {
    hide Inv, Grown, AllConsistent, StackOf, TrailOf, NamesApart, Names, Inline, WalkOn, TrailTo, LiveSet;
    var dc := w.dc;
    ghost var c0, k0 := dc.C(), dc.k;
    first, full := w.PathLookup(start, path);
    ghost var c1, k1 := dc.C(), dc.k;
    StillThere(c0, k0, c1, k1, start);
    if first.None? {
      return first, None, full;
    }
    second, full := w.PathLookup(start, path);
    if full {
      ghost var all, tr := Names(path, 0), TrailOf(c1, k1, start);
      ghost var i :| 0 < i <= |all| && Nowhere(c1, k1, TrailTo(tr, all[..i]));
      if ".." !in all {
        assert all == all[..i] + all[i..];
        Passed(c1, k1, first.value, w.dirs, tr, all[..i], all[i..]);
      }
    }
    ghost var c2, k2 := dc.C(), dc.k;
    StillThere(c1, k1, c2, k2, first.value);
    if second.Some? {
      OneDentry(c2, k2, first.value, second.value, w.dirs);
    }
  }

  /** When cur has no child of this name, no dentry is where that child would be. */
  lemma NotThere(c0: Cache, k0: Books, c: Cache, k: Books, cur: nat, name: string, dirs: Dirs)
    requires OnWay(c0, k0, c, k, cur, dirs) && NoChild(c, cur, name) && name != "." && name != ".."
    ensures NamesApart(c0) ==> Nowhere(c0, k0, TrailOn(TrailOf(c, k, cur), name))
  {
    if !NamesApart(c0) {
      return;
    }
    forall d | 0 <= d < POOL && c0.used[d] && c0.pool[d].inode.Some?
      ensures TrailOf(c0, k0, d) != TrailOn(TrailOf(c, k, cur), name)
    {
      StackSame(c0, k0, c, k, d);
      var up := TrailOf(c, k, cur);
      if TrailOf(c, k, d) == Trail(up.root, up.names + [name]) {
        assert Parented(c, k, d) && Consistent(c, dirs, d);
        var p := c.pool[d].parent.value;
        assert TrailOf(c, k, p).names == (up.names + [name])[..|up.names|];
        OneDentry(c, k, p, cur, dirs);
      }
    }
  }

  /** The places a walk without ".." passes are held by its result. */
  lemma {:induction false} Passed(c: Cache, k: Books, d: nat, dirs: Dirs, t: Trail, a: seq<string>, b: seq<string>)
    requires Inv(c, k) && AllConsistent(c, dirs) && Live(c, d) && c.pool[d].inode.Some? && ".." !in b
    requires TrailOf(c, k, d) == TrailTo(t, a + b)
    ensures !Nowhere(c, k, TrailTo(t, a))
    decreases |b|
  {
    if b == [] {
      assert a + b == a;
    } else {
      var b', name := b[..|b| - 1], b[|b| - 1];
      assert a + b == (a + b') + [name];
      TrailJoin(t, a + b', [name]);
      TrailStep(TrailTo(t, a + b'), name, []);
      assert TrailOf(c, k, d) == TrailOn(TrailTo(t, a + b'), name);
      if name == "." {
        Passed(c, k, d, dirs, t, a, b');
      } else {
        assert Parented(c, k, d) && Consistent(c, dirs, d);
        var up := TrailTo(t, a + b');
        var p := c.pool[d].parent.value;
        assert TrailOf(c, k, p).names == (up.names + [name])[..|up.names|];
        Passed(c, k, p, dirs, t, a, b');
      }
    }
  }

  /** What was in use before a walk is where it was. */
  lemma StillThere(c0: Cache, k0: Books, c: Cache, k: Books, d: nat)
    requires Inv(c0, k0) && Inv(c, k) && Live(c0, d)
    requires |c0.used| == |c0.pool| == |c.used| == |c.pool| == POOL && Grown(c0, c)
    ensures Live(c, d) && c.pool[d].inode == c0.pool[d].inode
    ensures StackOf(c, k, d) == StackOf(c0, k0, d) && TrailOf(c, k, d) == TrailOf(c0, k0, d)
  {
    StackSame(c0, k0, c, k, d);
  }

  // ---------- a name the cache has no room for ----------

  /** A directory may hold names of up to 255 bytes; the walk with the cache loses those of 32 or more. */
  method LoseLongName() returns (dirs: Dirs, path: string, result: Option<nat>, ghost full: bool)
    ensures WalkOn(dirs, [Some(2)], Names(path, 0)) == Some([Some(2), Some(5)])
    ensures result == None && !full
  {
    hide Inv, StackOf, TrailOf, LiveSet, AllConsistent, GivenUp, OnWay, WalkOn, Names, Inline, Grown;
    path := "abcdefghijklmnopqrstuvwxyz012345";
    dirs := map[2 := map[path := 5]];
    LongWalk(dirs, path);
    var dc := new Dentries();
    assert !dc.used[0];
    var root := dc.MakeRoot(2);
    OnlyRoot(dc.C(), dc.k, root.value, dirs);
    var w := new Walker(dc, dirs);
    result, full := w.PathLookup(root.value, path);
  }

  lemma LongWalk(dirs: Dirs, path: string)
    requires |path| >= INLINE_NAME && '/' !in path && dirs == map[2 := map[path := 5]]
    ensures Names(path, 0) == [path] && !Inline([path])
    ensures WalkOn(dirs, [Some(2)], [path]) == Some([Some(2), Some(5)])
  {
    OneName(path);
    assert |[path][0]| >= INLINE_NAME;
    var st: Stack := [Some(2)];
    assert StepOn(dirs, st, path) == Some(st + [Some(5)]);
    assert st + [Some(5)] == [Some(2), Some(5)] && [path] + [] == [path];
    WalkStep(dirs, st, path, []);
  }

  lemma OnlyRoot(c: Cache, k: Books, root: nat, dirs: Dirs)
    requires Inv(c, k) && Live(c, root) && c.pool[root] == Dentry(1, "/", Some(root), Some(2), false, [])
    requires forall i :: 0 <= i < POOL && i != root ==> !c.used[i]
    ensures AllConsistent(c, dirs) && StackOf(c, k, root) == [Some(2)] && LiveSet(c) == {root}
  {
  }

  /** The dentry above, and what ".." does to the stack. */
  lemma ParentOf(c: Cache, k: Books, d: nat, dirs: Dirs)
    requires Inv(c, k) && Live(c, d) && c.pool[d].inode.Some? && AllConsistent(c, dirs)
    ensures match c.pool[d].parent
            case None => StepOn(dirs, StackOf(c, k, d), "..") == Some(StackOf(c, k, d))
                         && TrailOn(TrailOf(c, k, d), "..") == TrailOf(c, k, d)
            case Some(p) =>
              && Live(c, p) && c.pool[p].inode.Some?
              && StepOn(dirs, StackOf(c, k, d), "..") == Some(StackOf(c, k, p))
              && TrailOn(TrailOf(c, k, d), "..") == TrailOf(c, k, p)
  {
    assert Parented(c, k, d) && Consistent(c, dirs, d);
  }

  lemma ChainSame(c: Cache, c': Cache, chain: seq<nat>, d: nat, j: nat)
    requires |c.used| == |c.pool| == |c'.used| == |c'.pool| == POOL
    requires FreedChain(c, c', chain, d) && Live(c', j)
    ensures SameDentry(c.pool[j], c'.pool[j])
  {
  }

  lemma HoldsOne(k0: Books, k: Books, cur: nat)
    requires |k0.holders| == POOL && cur < POOL && k.holders == Plus(k0.holders, cur)
    ensures |k.holders| == POOL && k.holders[cur] >= 1
  {
  }

  lemma HoldsBoth(k0: Books, k: Books, cur: nat, child: nat)
    requires |k0.holders| == POOL && cur < POOL && child < POOL && k.holders == Plus(Plus(k0.holders, cur), child)
    ensures |k.holders| == POOL && k.holders[cur] >= 1 && k.holders[child] >= 1
  {
  }

  lemma DroppedOne(k0: Books, k: Books, cur: nat, child: nat)
    requires |k0.holders| == POOL && cur < POOL && child < POOL && k.holders == Plus(Plus(k0.holders, cur), child)
    ensures k.holders[cur] >= 1 && Drop(k, cur).holders == Plus(k0.holders, child)
    ensures forall j :: 0 <= j < POOL ==> k0.holders[j] <= Drop(k, cur).holders[j]
    ensures Drop(k, cur).holders[child] > 0
  {
  }

  lemma DroppedOther(k0: Books, k: Books, cur: nat, child: nat)
    requires |k0.holders| == POOL && cur < POOL && child < POOL && k.holders == Plus(Plus(k0.holders, cur), child)
    ensures k.holders[child] >= 1 && Drop(k, child).holders == Plus(k0.holders, cur)
    ensures forall j :: 0 <= j < POOL ==> k0.holders[j] <= Drop(k, child).holders[j]
    ensures Drop(k, child).holders[cur] > 0
  {
  }

  lemma DroppedLast(k0: Books, k: Books, cur: nat)
    requires |k0.holders| == POOL && cur < POOL && k.holders == Plus(k0.holders, cur)
    ensures k.holders[cur] >= 1 && Drop(k, cur).holders == k0.holders
  {
  }

  lemma SameLive(c: Cache, c': Cache)
    requires |c.used| == POOL && c'.used == c.used
    ensures LiveSet(c') == LiveSet(c)
  {
  }

  lemma NewSlot(c0: Cache, c: Cache, d: nat)
    requires |c0.used| == |c0.pool| == |c.used| == |c.pool| == POOL && Grown(c0, c) && d < POOL
    ensures !c.used[d] ==> !c0.used[d]
  {
  }

  lemma FillSame(c: Cache, c1: Cache, d: nat, ino: nat)
    requires |c.used| == |c.pool| == |c1.used| == |c1.pool| == POOL && d < POOL && SameWhereBoth(c, c1) && !c.used[d]
    requires c1.pool[d].parent.Some? ==> c1.pool[d].parent.value < POOL
    ensures SameWhereBoth(c, FillSlot(c1, d, ino))
  {
  }

  lemma GrownSelf(c: Cache)
    requires |c.used| == |c.pool| == POOL
    ensures Grown(c, c)
  {
  }

  lemma StartWay(c0: Cache, k0: Books, start: nat, dirs: Dirs, c: Cache, k: Books)
    requires Inv(c0, k0) && Live(c0, start) && AllConsistent(c0, dirs) && c0.pool[start].inode.Some?
    requires c == WithCount(c0, start, c0.pool[start].count + 1) && k == Hold(k0, start) && Inv(c, k)
    ensures OnWay(c0, k0, c, k, start, dirs) && StackOf(c, k, start) == StackOf(c0, k0, start)
    ensures TrailOf(c, k, start) == TrailOf(c0, k0, start)
  {
    hide Inv;
    InvSized(c0, k0);
    forall j | 0 <= j < POOL
      ensures Consistent(c, dirs, j)
    {
      assert Consistent(c0, dirs, j);
    }
    ApartStays(c0, c);
    StackSame(c0, k0, c, k, start);
  }

  /** The stack of a child, whose inode its directory names. */
  lemma ChildStack(c: Cache, k: Books, c': Cache, k': Books, cur: nat, child: nat, dirs: Dirs)
    requires Inv(c, k) && Inv(c', k') && SameWhereBoth(c, c') && Live(c, cur) && Live(c', cur) && Live(c', child)
    requires AllConsistent(c', dirs) && c'.pool[child].parent == Some(cur) && child != cur && c'.pool[child].inode.Some?
    requires c'.pool[child].name != "." && c'.pool[child].name != ".."
    ensures StepOn(dirs, StackOf(c, k, cur), c'.pool[child].name) == Some(StackOf(c', k', child))
    ensures TrailOf(c', k', child) == TrailOn(TrailOf(c, k, cur), c'.pool[child].name)
    ensures |c'.pool[child].name| < INLINE_NAME
  {
    StackSame(c, k, c', k', cur);
    assert Consistent(c', dirs, child);
  }

  lemma InlineStep(name: string, names: seq<string>)
    ensures Inline([name] + names) <==> |name| < INLINE_NAME && Inline(names)
  {
    if Inline([name] + names) {
      assert ([name] + names)[0] == name;
      forall i | 0 <= i < |names|
        ensures |names[i]| < INLINE_NAME
      {
        assert ([name] + names)[i + 1] == names[i];
      }
    }
  }

  lemma TrailStep(t: Trail, name: string, names: seq<string>)
    ensures TrailTo(t, [name] + names) == TrailTo(TrailOn(t, name), names)
  {
    assert ([name] + names)[1..] == names;
  }

  lemma WalkStep(dirs: Dirs, st: Stack, name: string, names: seq<string>)
    requires st != []
    ensures WalkOn(dirs, st, [name] + names) ==
            match StepOn(dirs, st, name)
            case Some(next) => WalkOn(dirs, next, names)
            case None => None
  {
    assert ([name] + names)[1..] == names;
  }
}
