/**
 Inserting an extent into a sorted list of extents, with merging into the neighbours
 (ext4_extents_insert), as a function on values, and what it does to the map and to the blocks owned.
 */
module LeafInsert {
  import opened Wrappers
  import opened Runs
  import opened ExtentTree

  /** The first position whose key is greater than k, found from the right. */
  function UpperBound(es: seq<Entry>, k: nat): (p: nat)
    ensures p <= |es|
  {
    if es == [] || es[|es| - 1].key <= k then |es|
    else UpperBound(es[..|es| - 1], k)
  }

  lemma {:induction false} UpperBoundSplits(es: seq<Entry>, k: nat)
    ensures UpperBound(es, k) > 0 ==> es[UpperBound(es, k) - 1].key <= k
    ensures forall j :: UpperBound(es, k) <= j < |es| ==> es[j].key > k
  {
    if es != [] && es[|es| - 1].key > k {
      UpperBoundSplits(es[..|es| - 1], k);
    }
  }

  predicate Mergeable(x: Entry, y: Entry) {
    x.key + x.len == y.key && x.phys + x.len == y.phys && x.len + y.len <= INIT_MAX_LEN
  }

  function Join(x: Entry, y: Entry): Entry {
    Entry(x.key, x.len + y.len, x.phys)
  }

  function PutAt(es: seq<Entry>, p: nat, e: Entry): seq<Entry>
    requires p <= |es|
  {
    es[..p] + [e] + es[p..]
  }

  /** The slots after a successful insertion, None when the node is full and nothing merges. */
  function InsertExtent(es: seq<Entry>, max: nat, ex: Entry): Option<seq<Entry>> {
    var p := UpperBound(es, ex.key);
    if p > 0 && Mergeable(es[p - 1], ex) then
      var m := Join(es[p - 1], ex);
      if p < |es| && Mergeable(m, es[p]) then Some(es[..p - 1] + [Join(m, es[p])] + es[p + 1..])
      else Some(es[..p - 1] + [m] + es[p..])
    else if p < |es| && Mergeable(ex, es[p]) then Some(es[..p] + [Join(ex, es[p])] + es[p + 1..])
    else if |es| >= max then None
    else Some(PutAt(es, p, ex))
  }

  /** The map of after is the map of before, overwritten with the run of ex. */
  ghost predicate IsUpdate(before: seq<Entry>, after: seq<Entry>, ex: Entry) {
    forall l :: Lookup(after, l) == if Covers(ex, l) then Some(Target(ex, l)) else Lookup(before, l)
  }

  ghost predicate Unmapped(es: seq<Entry>, ex: Entry) {
    forall l :: Covers(ex, l) ==> Lookup(es, l) == None
  }

  ghost predicate ValidExtent(ex: Entry, hi: nat) {
    1 <= ex.len <= INIT_MAX_LEN && 1 <= ex.phys && ex.key + ex.len <= hi
  }

  lemma {:induction false} LookupIndex(disk: Disk, es: seq<Entry>, hi: nat, i: nat, l: nat)
    requires WfList(disk, 0, es, hi) && i < |es| && Covers(es[i], l)
    ensures Lookup(es, l) == Some(Target(es[i], l))
  {
    if i > 0 {
      SortedKeys(disk, 0, es, hi, 0, i);
      LookupIndex(disk, es[1..], hi, i - 1, l);
    }
  }

  lemma {:induction false} Tighten(disk: Disk, es: seq<Entry>, hi: nat, k: nat)
    requires WfList(disk, 0, es, hi)
    requires es != [] ==> es[|es| - 1].key + es[|es| - 1].len <= k
    ensures WfList(disk, 0, es, k)
  {
    if |es| > 1 {
      Tighten(disk, es[1..], hi, k);
    } else if |es| == 1 {
      assert WfList(disk, 0, es[1..], k);
    }
  }

  lemma Lookup3(a: seq<Entry>, e: Entry, b: seq<Entry>, l: nat)
    ensures Lookup(a + [e] + b, l) ==
            if Lookup(a, l).Some? then Lookup(a, l)
            else if Covers(e, l) then Some(Target(e, l))
            else Lookup(b, l)
  {
    LookupAppend(a + [e], b, l);
    LookupAppend(a, [e], l);
    assert [e][1..] == [];
  }

  lemma Data3(a: seq<Entry>, e: Entry, b: seq<Entry>)
    ensures Data(a + [e] + b) == Data(a) + Run(e.phys, e.len) + Data(b)
  {
    DataAppend(a + [e], b);
    DataAppend(a, [e]);
    DataSingle(e);
  }

  lemma Wf3(disk: Disk, a: seq<Entry>, e: Entry, b: seq<Entry>, hi: nat)
    ensures WfList(disk, 0, a + [e] + b, hi) <==>
            WfList(disk, 0, a, e.key) && ValidExtent(e, NextKey(b, hi)) && WfList(disk, 0, b, hi)
  {
    WfAppend(disk, 0, a + [e], b, hi);
    WfAppend(disk, 0, a, [e], NextKey(b, hi));
    assert [e][1..] == [];
  }

  lemma PlainInsertWf(disk: Disk, es: seq<Entry>, ex: Entry, hi: nat)
    requires WfList(disk, 0, es, hi) && ValidExtent(ex, hi) && Unmapped(es, ex)
    ensures WfList(disk, 0, PutAt(es, UpperBound(es, ex.key), ex), hi)
  {
    UpperBoundSplits(es, ex.key);
    var p := UpperBound(es, ex.key);
    var a, b := es[..p], es[p..];
    assert es == a + b;
    assert Covers(ex, ex.key);
    WfAppend(disk, 0, a, b, hi);
    if p > 0 && Covers(es[p - 1], ex.key) {
      LookupIndex(disk, es, hi, p - 1, ex.key);
    }
    Tighten(disk, a, NextKey(b, hi), ex.key);
    if b != [] && Covers(ex, b[0].key) {
      WfHead(disk, b, hi);
      LookupIndex(disk, es, hi, p, b[0].key);
    }
    Wf3(disk, a, ex, b, hi);
  }

  /** Inserting at the upper bound keeps the list sorted and disjoint and adds exactly the run. */
  lemma PlainInsert(disk: Disk, es: seq<Entry>, ex: Entry, hi: nat)
    requires WfList(disk, 0, es, hi) && ValidExtent(ex, hi) && Unmapped(es, ex)
    ensures var r := PutAt(es, UpperBound(es, ex.key), ex);
            WfList(disk, 0, r, hi) && IsUpdate(es, r, ex) && Data(r) == Data(es) + Run(ex.phys, ex.len)
  {
    PlainInsertWf(disk, es, ex, hi);
    var p := UpperBound(es, ex.key);
    var a, b := es[..p], es[p..];
    assert es == a + b;
    Data3(a, ex, b);
    DataAppend(a, b);
    forall l
      ensures Lookup(a + [ex] + b, l) == if Covers(ex, l) then Some(Target(ex, l)) else Lookup(es, l)
    {
      LookupAppend(a, b, l);
      Lookup3(a, ex, b, l);
    }
  }

  lemma WfHead(disk: Disk, b: seq<Entry>, hi: nat)
    requires WfList(disk, 0, b, hi) && b != []
    ensures Covers(b[0], b[0].key)
  {
  }

  lemma DataSingle(e: Entry)
    ensures Data([e]) == Run(e.phys, e.len)
  {
    assert [e][1..] == [];
  }

  /** Joining two adjacent extents that are contiguous on both sides changes nothing but the list. */
  lemma MergeStep(disk: Disk, a: seq<Entry>, x: Entry, y: Entry, b: seq<Entry>, hi: nat)
    requires WfList(disk, 0, a + [x] + ([y] + b), hi) && Mergeable(x, y)
    ensures WfList(disk, 0, a + [Join(x, y)] + b, hi)
    ensures Data(a + [Join(x, y)] + b) == Data(a + [x] + ([y] + b))
    ensures forall l :: Lookup(a + [Join(x, y)] + b, l) == Lookup(a + [x] + ([y] + b), l)
  {
    var j := Join(x, y);
    assert [] + [y] + b == [y] + b;
    Wf3(disk, a, x, [y] + b, hi);
    Wf3(disk, [], y, b, hi);
    Wf3(disk, a, j, b, hi);
    MergeData(a, x, y, b);
    forall l
      ensures Lookup(a + [j] + b, l) == Lookup(a + [x] + ([y] + b), l)
    {
      Lookup3(a, x, [y] + b, l);
      Lookup3([], y, b, l);
      Lookup3(a, j, b, l);
    }
  }

  lemma MergeData(a: seq<Entry>, x: Entry, y: Entry, b: seq<Entry>)
    requires Mergeable(x, y)
    ensures Data(a + [Join(x, y)] + b) == Data(a + [x] + ([y] + b))
  {
    RunSplit(x.phys, x.len, y.len);
    assert [] + [y] + b == [y] + b;
    Data3(a, x, [y] + b);
    Data3([], y, b);
    Data3(a, Join(x, y), b);
  }

  /** A merged list m of the plain insertion is as good as the plain insertion itself. */
  ghost predicate Inserted(disk: Disk, es: seq<Entry>, ex: Entry, hi: nat, r: seq<Entry>) {
    && WfList(disk, 0, r, hi)
    && IsUpdate(es, r, ex)
    && Data(r) == Data(es) + Run(ex.phys, ex.len)
  }

  lemma MergeInserted(disk: Disk, es: seq<Entry>, ex: Entry, hi: nat,
                      a: seq<Entry>, x: Entry, y: Entry, b: seq<Entry>, r: seq<Entry>)
    requires Inserted(disk, es, ex, hi, r) && r == a + [x] + ([y] + b) && Mergeable(x, y)
    ensures Inserted(disk, es, ex, hi, a + [Join(x, y)] + b)
  {
    MergeStep(disk, a, x, y, b, hi);
  }

  lemma InsertExtentShape(disk: Disk, es: seq<Entry>, max: nat, ex: Entry, hi: nat)
    requires WfList(disk, 0, es, hi) && |es| <= max
    ensures match InsertExtent(es, max, ex)
            case Some(r) =>
              && 0 < |r| <= max
              && r[0].key == (if es != [] && es[0].key <= ex.key then es[0].key else ex.key)
            case None => |es| == max
  {
    UpperBoundSplits(es, ex.key);
    var p := UpperBound(es, ex.key);
    if p > 0 {
      FirstBelow(disk, es, hi, p, ex.key);
    }
  }

  lemma PutAtSplit(es: seq<Entry>, p: nat, e: Entry)
    requires p <= |es|
    ensures p > 0 ==> PutAt(es, p, e) == es[..p - 1] + [es[p - 1]] + ([e] + es[p..])
    ensures p < |es| ==> PutAt(es, p, e) == es[..p] + [e] + ([es[p]] + es[p + 1..])
    ensures p < |es| ==> es[p..] == [es[p]] + es[p + 1..]
  {
  }

  lemma PlainInserted(disk: Disk, es: seq<Entry>, ex: Entry, hi: nat)
    requires WfList(disk, 0, es, hi) && ValidExtent(ex, hi) && Unmapped(es, ex)
    ensures UpperBound(es, ex.key) <= |es| && Inserted(disk, es, ex, hi, PutAt(es, UpperBound(es, ex.key), ex))
  {
    PlainInsert(disk, es, ex, hi);
  }

  /** A successful insertion adds exactly the run of ex to the map and to the blocks owned, keeps the
      list well formed and within the node, and lowers the first key only when ex comes first. */
  lemma InsertExtentCorrect(disk: Disk, es: seq<Entry>, max: nat, ex: Entry, hi: nat)
    requires WfList(disk, 0, es, hi) && |es| <= max && ValidExtent(ex, hi) && Unmapped(es, ex)
    ensures match InsertExtent(es, max, ex)
            case Some(r) =>
              && Inserted(disk, es, ex, hi, r) && 0 < |r| <= max
              && r[0].key == (if es != [] && es[0].key <= ex.key then es[0].key else ex.key)
            case None => |es| == max
  {
    hide Inserted, UpperBound, PutAt, WfList, Unmapped;
    InsertExtentShape(disk, es, max, ex, hi);
    PlainInserted(disk, es, ex, hi);
    var p := UpperBound(es, ex.key);
    var plain := PutAt(es, p, ex);
    UpperBoundSplits(es, ex.key);
    PutAtSplit(es, p, ex);
    if p > 0 && Mergeable(es[p - 1], ex) {
      var m := Join(es[p - 1], ex);
      MergeInserted(disk, es, ex, hi, es[..p - 1], es[p - 1], ex, es[p..], plain);
      if p < |es| && Mergeable(m, es[p]) {
        MergeInserted(disk, es, ex, hi, es[..p - 1], m, es[p], es[p + 1..], es[..p - 1] + [m] + es[p..]);
      }
    } else if p < |es| && Mergeable(ex, es[p]) {
      MergeInserted(disk, es, ex, hi, es[..p], ex, es[p], es[p + 1..], plain);
    }
  }

  lemma FirstBelow(disk: Disk, es: seq<Entry>, hi: nat, p: nat, k: nat)
    requires WfList(disk, 0, es, hi) && 0 < p <= |es| && es[p - 1].key <= k
    ensures es[0].key <= k
  {
    if p > 1 {
      SortedKeys(disk, 0, es, hi, 0, p - 1);
    }
  }

  /** A run between two lists covers nothing they map. */
  lemma UnmappedBetween(disk: Disk, a: seq<Entry>, b: seq<Entry>, ex: Entry, hi: nat)
    requires WfList(disk, 0, a, ex.key) && WfList(disk, 0, b, hi) && ex.key + ex.len <= NextKey(b, hi)
    ensures Unmapped(a + b, ex)
  {
    hide WfList, Lookup;
    forall l | Covers(ex, l)
      ensures Lookup(a + b, l) == None
    {
      LookupAppend(a, b, l);
      LookupRange(disk, a, ex.key, l);
      LookupRange(disk, b, hi, l);
    }
  }

  /** A run that merges on its left begins where the list before it ends. */
  lemma EndsBefore(disk: Disk, es: seq<Entry>, p: nat, ex: Entry, hi: nat)
    requires WfList(disk, 0, es, hi) && 0 < p <= |es| && Mergeable(es[p - 1], ex)
    ensures WfList(disk, 0, es[..p], ex.key) && WfList(disk, 0, es[p..], hi)
  {
    assert es == es[..p] + es[p..];
    WfAppend(disk, 0, es[..p], es[p..], hi);
    Tighten(disk, es[..p], NextKey(es[p..], hi), ex.key);
  }

  /** The code looks only at the first block of a new run.  Whether or not it merges, the list stays well
      formed exactly when none of the run's blocks is mapped. */
  lemma InsertExactly(disk: Disk, es: seq<Entry>, max: nat, ex: Entry, hi: nat)
    requires WfList(disk, 0, es, hi) && ValidExtent(ex, hi)
    ensures match InsertExtent(es, max, ex)
            case Some(r) => WfList(disk, 0, r, hi) <==> Unmapped(es, ex)
            case None => true
  {
    if Unmapped(es, ex) {
      InsertExtentCorrect(disk, es, if |es| <= max then max else |es|, ex, hi);
    }
    hide WfList, Unmapped, UpperBound, Mergeable;
    var p := UpperBound(es, ex.key);
    var a, b := es[..p], es[p..];
    assert es == a + b;
    match InsertExtent(es, max, ex)
    case None =>
    case Some(r) =>
      if WfList(disk, 0, r, hi) {
        InsertedApart(disk, es, p, max, ex, hi, r);
      }
  }

  /** Block 3 is not mapped, but a run of four blocks from there reaches block 5, which is. */
  lemma InsertOver(disk: Disk)
    ensures var es, ex := [Entry(5, 1, 100)], Entry(3, 4, 200);
            && WfList(disk, 0, es, LBLOCKS) && ValidExtent(ex, LBLOCKS) && Lookup(es, 3) == None
            && InsertExtent(es, 4, ex).Some? && !WfList(disk, 0, InsertExtent(es, 4, ex).value, LBLOCKS)
  {
    var es, ex := [Entry(5, 1, 100)], Entry(3, 4, 200);
    assert es[1..] == [] && es[..0] == [];
    assert Covers(ex, 5) && Lookup(es, 5).Some?;
    InsertExactly(disk, es, 4, ex, LBLOCKS);
  }

  lemma InsertedApart(disk: Disk, es: seq<Entry>, p: nat, max: nat, ex: Entry, hi: nat, r: seq<Entry>)
    requires WfList(disk, 0, es, hi) && p == UpperBound(es, ex.key) && InsertExtent(es, max, ex) == Some(r)
    requires WfList(disk, 0, r, hi)
    ensures Unmapped(es, ex)
  {
    hide WfList, Unmapped, UpperBound;
    var a, b := es[..p], es[p..];
    assert es == a + b;
    if p > 0 && Mergeable(es[p - 1], ex) {
      EndsBefore(disk, es, p, ex, hi);
      var m := Join(es[p - 1], ex);
      if !(p < |es| && Mergeable(m, es[p])) {
        Wf3(disk, es[..p - 1], m, b, hi);
      }
      UnmappedBetween(disk, a, b, ex, hi);
    } else {
      WfAppend(disk, 0, a, b, hi);
      if p < |es| && Mergeable(ex, es[p]) {
        Wf3(disk, a, Join(ex, es[p]), es[p + 1..], hi);
      } else {
        Wf3(disk, a, ex, b, hi);
      }
      UnmappedBetween(disk, a, b, ex, hi);
    }
  }
}
