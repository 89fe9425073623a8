/**
 A node of the extent tree in memory (fs/ext4/extents.c): the slot array embedded in the inode or in
 a scratch buffer, changed in place.
 */
module ExtentNode {
  import opened Wrappers
  import opened ExtentTree
  import opened LeafInsert
  import opened TreeInsert

  class NodeBuf {
    var depth: nat
    var max: nat
    var count: nat
    const slots: array<Entry>

    ghost predicate Valid()
      reads this
    {
      count <= slots.Length && max <= slots.Length
    }

    function Used(): seq<Entry>
      requires Valid()
      reads this, slots
    {
      slots[..count]
    }

    function Value(): Node
      requires Valid()
      reads this, slots
    {
      Node(depth, max, Used())
    }

    /** ext4_extents_init_node on a fresh scratch buffer. */
    constructor (d: nat)
      ensures Valid() && fresh(slots) && slots.Length == BLOCK_SLOTS
      ensures Value() == Node(d, BLOCK_SLOTS, [])
    {
      slots := new Entry[BLOCK_SLOTS](_ => Entry(0, 0, 0));
      depth, max, count := d, BLOCK_SLOTS, 0;
    }

    /** The root embedded in an inode: 60 bytes of i_block hold a header and four slots. */
    constructor Embedded()
      ensures Valid() && fresh(slots) && slots.Length == ROOT_SLOTS && Value() == Node(0, ROOT_SLOTS, [])
    {
      slots := new Entry[ROOT_SLOTS](_ => Entry(0, 0, 0));
      depth, max, count := 0, ROOT_SLOTS, 0;
    }

    /** ext4_read_block into a scratch buffer. */
    constructor Load(n: Node)
      requires |n.entries| <= BLOCK_SLOTS && n.max <= BLOCK_SLOTS
      ensures Valid() && fresh(slots) && slots.Length == BLOCK_SLOTS && Value() == n
    {
      slots := new Entry[BLOCK_SLOTS](i => if 0 <= i < |n.entries| then n.entries[i] else Entry(0, 0, 0));
      depth, max, count := n.depth, n.max, |n.entries|;
    }

    /** ext4_extents_init_node on a node in use: everything is zeroed first. */
    method InitNode(d: nat)
      requires Valid()
      modifies this, slots
      ensures Valid() && Value() == Node(d, slots.Length, [])
      ensures forall k :: 0 <= k < slots.Length ==> slots[k] == Entry(0, 0, 0)
    {
      forall k | 0 <= k < slots.Length {
        slots[k] := Entry(0, 0, 0);
      }
      depth, max, count := d, slots.Length, 0;
    }

    /** ext4_extents_find: the slot that covers l, -1 when there is none. */
    method Find(l: nat, ghost disk: Disk, ghost hi: nat) returns (idx: int)
      requires Valid() && WfList(disk, 0, Used(), hi)
      ensures -1 <= idx < count
      ensures idx >= 0 ==> Covers(slots[idx], l) && Lookup(Used(), l) == Some(Target(slots[idx], l))
      ensures idx < 0 <==> Lookup(Used(), l) == None
    {
      ghost var es := Used();
      var i := 0;
      while i < count
        invariant 0 <= i <= count
        invariant forall j :: 0 <= j < i ==> !Covers(es[j], l)
      {
        var e := slots[i];
        if e.len != 0 {
          if e.key <= l && l < e.key + e.len {
            LookupIndex(disk, es, hi, i, l);
            return i;
          }
          if e.key > l {
            break;
          }
        }
        i := i + 1;
      }
      if i < count {
        forall j | i < j < count
          ensures !Covers(es[j], l)
        {
          SortedKeys(disk, 0, es, hi, i, j);
        }
      }
      NoCover(es, l);
      idx := -1;
    }

    /** The insertion point, searched from the right. */
    method InsertPos(k: nat) returns (p: nat)
      requires Valid()
      ensures p == UpperBound(Used(), k)
    {
      p := count;
      while p > 0 && slots[p - 1].key > k
        invariant 0 <= p <= count
        invariant UpperBound(slots[..p], k) == UpperBound(Used(), k)
      {
        assert slots[..p][..p - 1] == slots[..p - 1];
        p := p - 1;
      }
    }

    /** ext4_extents_insert_entry: shift the tail up by one slot and put e at pos. */
    method ShiftIn(pos: nat, e: Entry)
      requires Valid() && pos <= count < slots.Length
      modifies this`count, slots
      ensures Valid() && Used() == PutAt(old(Used()), pos, e)
    {
      ghost var es := Used();
      var i := count;
      while i > pos
        modifies slots
        invariant pos <= i <= count
        invariant forall k :: 0 <= k < i ==> slots[k] == es[k]
        invariant forall k :: i < k <= count ==> slots[k] == es[k - 1]
      {
        slots[i] := slots[i - 1];
        i := i - 1;
      }
      slots[pos] := e;
      count := count + 1;
      assert slots[..count] == es[..pos] + [e] + es[pos..];
    }

    /** Shift the tail down over the slot at pos. */
    method ShiftOut(pos: nat)
      requires Valid() && pos < count
      modifies this`count, slots
      ensures Valid() && Used() == old(Used())[..pos] + old(Used())[pos + 1..]
    {
      ghost var es := Used();
      var i := pos;
      while i < count - 1
        modifies slots
        invariant pos <= i <= count - 1
        invariant forall k :: 0 <= k < pos ==> slots[k] == es[k]
        invariant forall k :: pos <= k < i ==> slots[k] == es[k + 1]
        invariant forall k :: i < k < count ==> slots[k] == es[k]
      {
        slots[i] := slots[i + 1];
        i := i + 1;
      }
      count := count - 1;
      assert slots[..count] == es[..pos] + es[pos + 1..];
    }

    /** The first half of ext4_extents_insert: grow the left neighbour, and let it swallow the right one. */
    method MergeLeft(p: nat, ex: Entry)
      requires Valid() && 0 < p <= count && Mergeable(slots[p - 1], ex)
      modifies this`count, slots
      ensures Valid()
      ensures var es := old(Used());
              var m := Join(es[p - 1], ex);
              Used() == if p < |es| && Mergeable(m, es[p]) then es[..p - 1] + [Join(m, es[p])] + es[p + 1..]
                        else es[..p - 1] + [m] + es[p..]
    {
      ghost var es := Used();
      slots[p - 1] := Join(slots[p - 1], ex);
      assert Used() == es[..p - 1] + [Join(es[p - 1], ex)] + es[p..];
      if p < count && Mergeable(slots[p - 1], slots[p]) {
        slots[p - 1] := Join(slots[p - 1], slots[p]);
        ShiftOut(p);
      }
    }

    /** ext4_extents_insert: merge with the neighbours of the insertion point or take a slot there. */
    method Insert(ex: Entry) returns (ok: bool)
      requires Valid() && count <= max
      modifies this`count, slots
      ensures Valid()
      ensures match InsertExtent(old(Used()), max, ex)
              case Some(r) => ok && Used() == r
              case None => !ok && Used() == old(Used())
    {
      ghost var es := Used();
      var p := InsertPos(ex.key);
      if p > 0 && Mergeable(slots[p - 1], ex) {
        MergeLeft(p, ex);
        return true;
      }
      if p < count && Mergeable(ex, slots[p]) {
        slots[p] := Join(ex, slots[p]);
        assert Used() == es[..p] + [Join(ex, es[p])] + es[p + 1..];
        return true;
      }
      if count == max {
        return false;
      }
      ShiftIn(p, ex);
      ok := true;
    }

    /** Cutting a full node at pos, as ext4_extents_split_leaf and ext4_extents_add_index do: the tail
        goes to the empty node right, the slots it leaves are zeroed, and e ends the left half, or
        starts the right one when there is no tail. */
    method Split(pos: nat, e: Entry, right: NodeBuf)
      requires Valid() && 0 < count == max && pos <= count
      requires right != this && right.slots != slots
      requires right.Valid() && right.count == 0 && right.slots.Length == BLOCK_SLOTS && max <= BLOCK_SLOTS
      modifies this`count, slots, right`count, right.slots
      ensures Valid() && right.Valid()
      ensures (Used(), right.Used()) == SplitAt(old(Used()), pos, e)
      ensures forall k :: count <= k < max ==> slots[k] == Entry(0, 0, 0)
    {
      ghost var es := Used();
      var n := count;
      var tail := n - pos;
      if tail > 0 {
        var i := 0;
        while i < tail
          modifies right.slots
          invariant 0 <= i <= tail
          invariant forall k :: 0 <= k < i ==> right.slots[k] == es[pos + k]
        {
          right.slots[i] := slots[pos + i];
          i := i + 1;
        }
        right.count := tail;
        assert right.slots[..tail] == es[pos..];
        count := pos;
        forall k | pos <= k < max {
          slots[k] := Entry(0, 0, 0);
        }
      }
      if pos == n {
        right.slots[0] := e;
        right.count := 1;
        assert right.slots[..1] == [e];
      } else {
        slots[pos] := e;
        count := pos + 1;
        assert slots[..count] == es[..pos] + [e];
        assert right.slots[..right.count] == es[pos..];
      }
    }
  }

  lemma {:induction false} NoCover(es: seq<Entry>, l: nat)
    requires forall j :: 0 <= j < |es| ==> !Covers(es[j], l)
    ensures Lookup(es, l) == None
  {
    if es != [] {
      NoCover(es[1..], l);
    }
  }
}
