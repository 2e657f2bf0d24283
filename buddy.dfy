/**
 * The allocator of buddy.c: `buddy_allocator_create`, `split`, `balloc`,
 * `bfree` and the bitmap helpers they use, over the three arrays an
 * allocator owns.
 *
 * `heads` is the `level` array of list heads, `used` the `used_index`
 * bitmap and `nodes` the block records (the registry `get_node` indexes;
 * a `block_t *` becomes the index of its record). The ghost `status` is
 * the buddy tree the arrays represent and `lists` the contents of each
 * level's list; `Valid` ties the two views together.
 */
module Buddy {
  import opened Wrappers
  import opened Geometry
  import opened TreeIndex
  import opened Bitset
  import opened FreeList
  import opened StatusTree
  import opened AllocatorState
  import opened AllocatorSteps

  /** The largest `uint32_t`: `found_at_level--` below 0 wraps to it. */
  const U32_MAX: nat := 0xFFFF_FFFF

  /** `a - b` on `uint32_t` operands: below zero it wraps past `U32_MAX`. */
  function U32Sub(a: nat, b: nat): (r: nat)
    requires a <= U32_MAX && b <= U32_MAX
    ensures r <= U32_MAX
    ensures b <= a ==> r == a - b
    ensures a < b ==> a < r
    ensures r % (U32_MAX + 1) == (a - b) % (U32_MAX + 1)
  {
    if b <= a then a - b else U32_MAX + 1 + a - b
  }

  class Allocator {
    const pageSize: nat
    const maxLevel: nat
    ghost const pageSizeOrder: nat
    /** `level`: the head of each level's free list. */
    const heads: array<Option<nat>>
    /** `used_index`: one bit per node, set while the node is allocated or split. */
    const used: array<bv8>
    /** The block records, one per node of the tree. */
    const nodes: array<Block>
    /** The buddy tree the arrays stand for. */
    ghost var status: seq<Status>
    /** The nodes on each level's free list, in list order. */
    ghost var lists: seq<seq<nat>>

    /** Sizes fixed at creation. */
    ghost predicate Shape()
      reads this
    {
      Sized(maxLevel, pageSizeOrder, pageSize, heads.Length, used.Length, nodes.Length) &&
      used as object != heads as object && used as object != nodes as object
    }

    /** The invariant while `balloc`'s descent has just split `hole` (-1: none). */
    ghost predicate ValidBut(hole: int)
      reads this, heads, used, nodes
    {
      Shape() && Inv(maxLevel, pageSize, status, used[..], nodes[..], heads[..], lists, hole)
    }

    /** The invariant between calls. */
    ghost predicate Valid()
      reads this, heads, used, nodes
    {
      ValidBut(-1)
    }

    /**
     * `buddy_allocator_create`: an arena of `2^maxLevel` pages of
     * `2^pageSizeOrder` bytes, all of it one free block at level 0.
     */
    constructor (maxLevel: nat, pageSizeOrder: nat)
      requires maxLevel + pageSizeOrder <= 31
      ensures Valid() && fresh(heads) && fresh(used) && fresh(nodes)
      ensures this.maxLevel == maxLevel && this.pageSizeOrder == pageSizeOrder
      ensures pageSize == Pow2(pageSizeOrder)
      ensures status == Initial(maxLevel)
      ensures Total(maxLevel, status, Allocated) == 0
      ensures heads[0] == Some(0) && nodes[0] == Block(0, 0, None, None)
    {
      var numNodes := NumNodes(maxLevel);
      this.pageSize := Pow2(pageSizeOrder);
      this.maxLevel := maxLevel;
      this.pageSizeOrder := pageSizeOrder;
      heads := new Option<nat>[maxLevel + 1](_ => None);
      used := new bv8[NumBytesForBitset(numNodes)](_ => 0);
      nodes := new Block[numNodes](_ => Block(0, 0, None, None));
      status := Initial(maxLevel);
      lists := seq(maxLevel + 1, l => if l == 0 then [0] else []);
      new;
      heads[0] := Some(0);
      nodes[0] := nodes[0].(level := 0, address := 0);
      InitialInv(maxLevel, pageSize, used[..], nodes[..], heads[..], lists);
      InitialSound(maxLevel);
    }

    /** `mark_used`: set the bit of the node whose record is `nodes[i]`. */
    method MarkUsed(i: nat)
      requires Shape() && i < nodes.Length && LevelOf(i) <= maxLevel
      requires nodes[i].level == LevelOf(i) && nodes[i].address == AddrOf(maxLevel, pageSize, i)
      modifies used
      ensures i / 8 < used.Length
      ensures used[..] == SetBit(old(used[..]), i)
    {
      IndexOfAddr(maxLevel, pageSize, i);
      var idx := BlockToIdx(maxLevel, pageSize, nodes[i].level, nodes[i].address);
      var bytePos := idx / 8;
      used[bytePos] := used[bytePos] | MaskIdx(idx);
    }

    /** `mark_unused`: clear the bit of the node whose record is `nodes[i]`. */
    method MarkUnused(i: nat)
      requires Shape() && i < nodes.Length && LevelOf(i) <= maxLevel
      requires nodes[i].level == LevelOf(i) && nodes[i].address == AddrOf(maxLevel, pageSize, i)
      modifies used
      ensures i / 8 < used.Length
      ensures used[..] == ClearBit(old(used[..]), i)
    {
      IndexOfAddr(maxLevel, pageSize, i);
      var idx := BlockToIdx(maxLevel, pageSize, nodes[i].level, nodes[i].address);
      var bytePos := idx / 8;
      used[bytePos] := used[bytePos] & !MaskIdx(idx);
    }

    /** `buddy_used`: whether the buddy of live non-root node `i` is allocated or split. */
    function BuddyUsed(i: nat): (r: bool)
      reads this, heads, used, nodes
      requires Valid() && 1 <= i < |status| && status[i] != Absent
      ensures r <==> status[SiblingIdx(i)].Busy()
    {
      IndexOfAddr(maxLevel, pageSize, i);
      SiblingInRange(maxLevel, i);
      var buddy := BuddyIdx(maxLevel, pageSize, nodes[i]);
      assert Bit(used[..], buddy) == (used[buddy / 8] & MaskIdx(buddy) != 0);
      used[buddy / 8] & MaskIdx(buddy) != 0
    }

    /**
     * The first half of `split`: the records of both halves of node `c`
     * take the level below `c`'s, the left one `c`'s address and the right
     * one the address half a block further on.
     */
    method WriteHalves(c: nat) returns (left: nat)
      requires Shape() && c < nodes.Length && LevelOf(c) < maxLevel
      requires nodes[c].level == LevelOf(c) && nodes[c].address == AddrOf(maxLevel, pageSize, c)
      modifies nodes
      ensures left == LeftChild(c) && left + 1 < nodes.Length
      ensures nodes[..] == Halves(maxLevel, pageSize, old(nodes[..]), c)
    {
      var level, address := nodes[c].level, nodes[c].address;
      IndexOfAddr(maxLevel, pageSize, c);
      var idx := BlockToIdx(maxLevel, pageSize, level, address);
      assert idx == c;
      ChildLevels(c);
      NodesInRange(maxLevel, LeftChild(c) + 1);
      var insertAtLevel := level + 1;
      left := LeftChild(idx);
      var right := left + 1;
      var size := BlockSizeAtLevel(maxLevel, pageSize, insertAtLevel);
      ghost var recs := nodes[..];
      var leftRec := nodes[left].(level := insertAtLevel, address := address);
      var rightRec := nodes[right].(level := insertAtLevel, address := address + size);
      HalvesWrites(maxLevel, pageSize, recs, c, leftRec, rightRec);
      nodes[left] := leftRec;
      assert nodes[..] == recs[left := leftRec];
      nodes[right] := rightRec;
      assert nodes[..] == recs[left := leftRec][right := rightRec];
    }

    /**
     * `split`: write the records of both halves of node `c` and push the
     * left, then the right half onto the next level's list.
     */
    method Split(c: nat)
      requires Shape() && c < nodes.Length && LevelOf(c) < maxLevel
      requires nodes[c].level == LevelOf(c) && nodes[c].address == AddrOf(maxLevel, pageSize, c)
      requires heads[LevelOf(c) + 1].Some? ==> heads[LevelOf(c) + 1].value < nodes.Length
      modifies nodes, heads
      ensures LeftChild(c) + 1 < nodes.Length
      ensures nodes[..] == SplitRecs(maxLevel, pageSize, old(nodes[..]), old(heads[..]), c)
      ensures heads[..] == old(heads[..])[LevelOf(c) + 1 := Some(LeftChild(c) + 1)]
    {
      ghost var recs, hd := nodes[..], heads[..];
      var insertAtLevel := nodes[c].level + 1;
      var left := WriteHalves(c);
      ghost var halves := nodes[..];
      assert halves == Halves(maxLevel, pageSize, recs, c) && insertAtLevel == recs[c].level + 1;
      heads[insertAtLevel] := Insert(nodes, heads[insertAtLevel], left);
      assert heads[..] == hd[insertAtLevel := Some(left)];
      heads[insertAtLevel] := Insert(nodes, heads[insertAtLevel], left + 1);
      assert nodes[..] == InsertRecs(InsertRecs(halves, hd[insertAtLevel], left), Some(left), left + 1);
      assert nodes[..] == SplitRecs(maxLevel, pageSize, recs, hd, c);
    }

    /**
     * The search loop of `balloc`: from `level` towards the root, the first
     * level whose list is not empty, and its head. `found_at_level` is a
     * `uint32_t`: below level 0 it wraps to `U32_MAX`, which ends the loop.
     */
    method Search(level: nat) returns (found: nat, block: Option<nat>)
      requires Shape() && level <= maxLevel
      ensures block.None? <==> DeepestNonEmpty(heads[..], level).None?
      ensures block.None? ==> found == U32_MAX
      ensures block.Some? ==> found == DeepestNonEmpty(heads[..], level).value && block == heads[found]
    {
      found := level;
      block := None;
      while found <= maxLevel
        invariant found <= level || found == U32_MAX
        invariant forall l :: 0 <= l <= level && (found == U32_MAX || found < l) ==> heads[l].None?
        invariant block.None?
        decreases if found == U32_MAX then 0 else found + 1
      {
        if heads[found].Some? {
          block := heads[found];
          break;
        }
        found := if found == 0 then U32_MAX else found - 1;
      }
    }

    /**
     * The end of `balloc` (and its whole work when the search stops on the
     * requested level): `mark_used` the head of level `l`'s list, then pop it.
     */
    method Take(l: nat, ghost hole: int) returns (b: nat)
      requires ValidBut(hole) && l <= maxLevel && heads[l].Some?
      requires hole == -1 || (heads[l].value >= 1 && hole == Parent(heads[l].value))
      modifies this, used, nodes, heads
      ensures Valid()
      ensures old(heads[l]) == Some(b) && LevelOf(b) == l && b < |old(status)| && old(status)[b] == Free
      ensures b / 8 < used.Length && LinksInRange(old(nodes[..]), b) && old(lists)[l] != []
      ensures status == old(status)[b := Allocated]
      ensures lists == old(lists)[l := old(lists)[l][1..]]
      ensures used[..] == SetBit(old(used[..]), b)
      ensures nodes[..] == DeleteRecs(old(nodes[..]), b)
      ensures heads[..] == old(heads[..])[l := old(nodes[b].next)]
      ensures b < nodes.Length && nodes[b] == Block(l, AddrOf(maxLevel, pageSize, b), None, None)
    {
      b := heads[l].value;
      ghost var bits, recs, hd := used[..], nodes[..], heads[..];
      EmptyLevel(maxLevel, pageSize, status, bits, recs, hd, lists, hole, l);
      TakeEffect(maxLevel, pageSize, status, bits, recs, hd, lists, hole, b);
      MarkUsed(b);
      assert nodes[..] == recs;
      var next := Delete(nodes, b);
      heads[l] := next;
      assert used[..] == SetBit(bits, b);
      assert nodes[..] == DeleteRecs(recs, b);
      assert heads[..] == hd[l := recs[b].next];
      status := status[b := Allocated];
      lists := lists[l := lists[l][1..]];
    }

    /**
     * The statements of one round of `balloc`'s descent on the head `c` of
     * level `l`'s list: `split` it, pop it (`delete`, and its successor
     * becomes the head) and `mark_used` it.
     */
    method SplitPop(l: nat, c: nat)
      requires Shape() && l < maxLevel && LeftChild(c) + 1 < nodes.Length && LevelOf(c) == l && heads[l] == Some(c)
      requires LeftChild(c) + 1 < |status|
      requires nodes[c].level == l && nodes[c].address == AddrOf(maxLevel, pageSize, c)
      requires heads[l + 1].Some? ==> heads[l + 1].value < nodes.Length
      requires LinksInRange(SplitRecs(maxLevel, pageSize, nodes[..], heads[..], c), c)
      requires DeleteRecs(SplitRecs(maxLevel, pageSize, nodes[..], heads[..], c), c)[c].level == l
      requires DeleteRecs(SplitRecs(maxLevel, pageSize, nodes[..], heads[..], c), c)[c].address ==
               AddrOf(maxLevel, pageSize, c)
      modifies this, used, nodes, heads
      ensures status == SplitAt(old(status), c) && lists == SplitLists(old(lists), c)
      ensures used[..] == SetBit(old(used[..]), c)
      ensures nodes[..] == DeleteRecs(SplitRecs(maxLevel, pageSize, old(nodes[..]), old(heads[..]), c), c)
      ensures heads[..] == old(heads[..])[l + 1 := Some(LeftChild(c) + 1)]
                            [l := SplitRecs(maxLevel, pageSize, old(nodes[..]), old(heads[..]), c)[c].next]
    {
      ghost var recs1 := SplitRecs(maxLevel, pageSize, nodes[..], heads[..], c);
      Split(c);
      var next := Delete(nodes, c);
      heads[l] := next;
      MarkUsed(c);
      status, lists := SplitAt(status, c), SplitLists(lists, c);
    }

    /**
     * One round of `balloc`'s descent: `split` the head `c` of level `l`'s
     * list, pop it and `mark_used` it. `c` is then the hole.
     */
    method SplitHead(l: nat, ghost hole: int) returns (c: nat)
      requires ValidBut(hole) && l < maxLevel && heads[l].Some?
      requires hole == -1 || (heads[l].value >= 1 && hole == Parent(heads[l].value))
      modifies this, used, nodes, heads
      ensures ValidBut(c) && old(heads[l]) == Some(c)
      ensures LeftChild(c) + 1 < |old(status)| && status == SplitAt(old(status), c)
      ensures lists == SplitLists(old(lists), c)
      ensures heads[l + 1] == Some(LeftChild(c) + 1)
    {
      c := heads[l].value;
      ghost var st, bits, recs, hd, ls := status, used[..], nodes[..], heads[..], lists;
      EmptyLevel(maxLevel, pageSize, st, bits, recs, hd, ls, hole, l);
      SplitHeadFacts(maxLevel, pageSize, st, bits, recs, hd, ls, hole, c);
      SplitPop(l, c);
      assert status == SplitAt(st, c) && lists == SplitLists(ls, c);
      assert heads[l + 1] == Some(LeftChild(c) + 1);
      SplitEffect(maxLevel, pageSize, st, bits, recs, hd, ls, hole, c);
      assert Inv(maxLevel, pageSize, status, used[..], nodes[..], heads[..], lists, c);
    }

    /**
     * A round of `balloc`'s descent towards level `lvl`, as the abstract
     * effect sees it: splitting the head `c` of level `l`'s list and going
     * on from its right half leaves the same allocation still to be made.
     */
    method DescendOnce(l: nat, ghost lvl: nat, ghost hole: int) returns (c: nat)
      requires ValidBut(hole) && l < lvl <= maxLevel && heads[l].Some? && LevelOf(heads[l].value) == l
      requires hole == -1 || (heads[l].value >= 1 && hole == Parent(heads[l].value))
      modifies this, used, nodes, heads
      ensures ValidBut(c) && old(heads[l]) == Some(c) && heads[l + 1] == Some(LeftChild(c) + 1)
      ensures |old(status)| == NumNodes(maxLevel) && LevelOf(LeftChild(c) + 1) == l + 1
      ensures AllocStatus(maxLevel, status, LeftChild(c) + 1, lvl) == AllocStatus(maxLevel, old(status), c, lvl)
      ensures Descend(LeftChild(c) + 1, lvl) == Descend(c, lvl)
      ensures AllocLists(lists, LeftChild(c) + 1, lvl) == AllocLists(old(lists), c, lvl)
    {
      ghost var before := status;
      c := SplitHead(l, hole);
      AllocUnfold(maxLevel, before, c, lvl);
    }

    /**
     * The descent of `balloc` from level `found`, whose list is headed by
     * the block the search stopped on, to the requested `level`: while
     * `found` is above `level`, split the head of its list and go on with
     * the right half a level further down, which then heads the next
     * level's list. `hole0` is the node split last (-1: none yet); on
     * return `cur` heads the list of `level` and `hole` is the node split
     * last.
     */
    method Descent(found: nat, level: nat, ghost hole0: int) returns (ghost hole: int, ghost cur: nat)
      requires ValidBut(hole0) && found <= level <= maxLevel
      requires heads[found].Some? && LevelOf(heads[found].value) == found
      requires hole0 == -1 || (heads[found].value >= 1 && hole0 == Parent(heads[found].value))
      modifies this, used, nodes, heads
      ensures ValidBut(hole) && heads[level] == Some(cur) && LevelOf(cur) == level
      ensures hole == -1 || (cur >= 1 && hole == Parent(cur))
      ensures |old(status)| == NumNodes(maxLevel)
      ensures AllocStatus(maxLevel, status, cur, level) ==
              AllocStatus(maxLevel, old(status), old(heads[found]).value, level)
      ensures Descend(cur, level) == Descend(old(heads[found]).value, level)
      ensures AllocLists(lists, cur, level) == AllocLists(old(lists), old(heads[found]).value, level)
      decreases level - found
    {
      if found == level {
        hole, cur := hole0, heads[found].value;
        return;
      }
      var c := DescendOnce(found, level, hole0);
      hole, cur := Descent(found + 1, level, c);
    }

    /**
     * `balloc` once the search has stopped on level `found` with the
     * requested `level` at or below it: when the two are equal, take the
     * head of the list at once; otherwise descend and take the head of the
     * requested level's list. The block handed out is the one `Descend`
     * reaches from the block found, and the tree changes as `AllocStatus`
     * says.
     */
    method Carve(found: nat, level: nat, ghost f: nat) returns (b: nat)
      requires Valid() && found <= level <= maxLevel
      requires heads[found] == Some(f) && LevelOf(f) == found
      modifies this, used, nodes, heads
      ensures Valid() && |old(status)| == NumNodes(maxLevel)
      ensures b == Descend(f, level)
      ensures status == AllocStatus(maxLevel, old(status), f, level)
      ensures lists == AllocLists(old(lists), f, level)
      ensures b < nodes.Length && nodes[b] == Block(level, AddrOf(maxLevel, pageSize, b), None, None)
    {
      if found == level {
        ghost var st := status;
        b := Take(level, -1);
        NodesInRange(maxLevel, b);
        assert status == AllocStatus(maxLevel, st, b, level);
        assert lists == AllocLists(old(lists), b, level);
        return;
      }
      ghost var hole, cur := Descent(found, level, -1);
      ghost var st, ls := status, lists;
      b := Take(level, hole);
      NodesInRange(maxLevel, b);
      assert status == AllocStatus(maxLevel, st, cur, level);
      assert lists == AllocLists(ls, cur, level);
    }

    /**
     * `balloc`: a block of `2^order` pages, or `None`. The request is for
     * level `maxLevel - order` in 32-bit arithmetic, so an order above
     * `maxLevel` wraps to a level that does not exist. The search takes
     * the smallest free block that is large enough (free node `f`), splits
     * it down to the requested level, always going on with the right half,
     * and hands out the last right half.
     */
    method Balloc(order: nat) returns (r: Option<nat>, ghost f: nat)
      requires Valid() && order <= U32_MAX
      modifies this, used, nodes, heads
      ensures Valid()
      ensures r.None? <==> order > maxLevel || NoFreeUpTo(old(status), maxLevel - order)
      ensures r.None? ==> unchanged(this, used, nodes, heads)
      ensures r.Some? ==> order <= maxLevel && BestFit(old(status), f, maxLevel - order) &&
                          r.value == Descend(f, maxLevel - order) &&
                          status == AllocStatus(maxLevel, old(status), f, maxLevel - order) &&
                          lists == AllocLists(old(lists), f, maxLevel - order)
      ensures r.Some? ==> DeepestNonEmpty(old(heads[..]), maxLevel - order).Some? &&
                          old(heads[..])[DeepestNonEmpty(old(heads[..]), maxLevel - order).value] == Some(f)
      ensures r.Some? ==> r.value < nodes.Length &&
                          nodes[r.value] == Block(maxLevel - order, AddrOf(maxLevel, pageSize, r.value), None, None)
      ensures HeadsOf(heads[..], lists)
    {
      f := 0;
      var level := U32Sub(maxLevel, order);
      if level > maxLevel {
        r := None;
        return;
      }
      assert order <= maxLevel && level == maxLevel - order;
      var found, block := Search(level);
      SearchFinds(maxLevel, pageSize, status, used[..], nodes[..], heads[..], lists, level);
      if block.None? {
        r := None;
        return;
      }
      f := block.value;
      var b := Carve(found, level, f);
      r := Some(b);
    }

    /**
     * The end of `bfree` when the buddy is in use: `mark_unused` the block
     * and push it onto its level's list.
     */
    method Release(block: nat, level: nat)
      requires Valid() && block < |status| && status[block] == Allocated && level == LevelOf(block)
      requires block >= 1 ==> SiblingIdx(block) < |status| && status[SiblingIdx(block)].Busy()
      modifies this, used, nodes, heads
      ensures Valid()
      ensures level <= maxLevel && block / 8 < used.Length && block < nodes.Length
      ensures old(heads[level]).Some? ==> old(heads[level]).value < nodes.Length
      ensures status == old(status)[block := Free]
      ensures lists == old(lists)[level := [block] + old(lists)[level]]
      ensures used[..] == ClearBit(old(used[..]), block)
      ensures nodes[..] == InsertRecs(old(nodes[..]), old(heads[level]), block)
      ensures heads[..] == old(heads[..])[level := Some(block)]
    {
      FreeEffect(maxLevel, pageSize, status, used[..], nodes[..], heads[..], lists, block);
      MarkUnused(block);
      heads[level] := Insert(nodes, heads[level], block);
      status := status[block := Free];
      lists := lists[level := [block] + lists[level]];
    }

    /**
     * One merge of `bfree` when the buddy is free: `mark_unused` the block,
     * unlink the buddy from its list, `mark_unused` the buddy; the parent
     * stands for the merged block. The buddy is unlinked with `delete`
     * and, when it heads the list, its successor becomes the head.
     */
    method Merge(block: nat, level: nat) returns (parent: nat, ghost k: nat)
      requires Valid() && 1 <= block < |status| && status[block] == Allocated && level == LevelOf(block)
      requires SiblingIdx(block) < |status| && !status[SiblingIdx(block)].Busy()
      modifies this, used, nodes, heads
      ensures Valid()
      ensures parent == Parent(block) && parent < |status| && status[parent] == Allocated
      ensures level <= maxLevel && block / 8 < used.Length && SiblingIdx(block) / 8 < used.Length
      ensures LinksInRange(old(nodes[..]), SiblingIdx(block)) && k < |old(lists)[level]|
      ensures status == MergeAt(old(status), block)
      ensures lists == old(lists)[level := RemoveAt(old(lists)[level], k)]
      ensures used[..] == ClearBit(ClearBit(old(used[..]), block), SiblingIdx(block))
      ensures nodes[..] == DeleteRecs(old(nodes[..]), SiblingIdx(block))
      ensures heads[..] == old(heads[..])[level := if old(heads[level]) == Some(SiblingIdx(block))
                                                   then old(nodes[SiblingIdx(block)].next)
                                                   else old(heads[level])]
    {
      k := MergeEffect(maxLevel, pageSize, status, used[..], nodes[..], heads[..], lists, block);
      MarkUnused(block);
      IndexOfAddr(maxLevel, pageSize, block);
      var buddy := BuddyIdx(maxLevel, pageSize, nodes[block]);
      var next := Delete(nodes, buddy);
      if heads[level] == Some(buddy) {
        heads[level] := next;
      }
      MarkUnused(buddy);
      IndexOfAddr(maxLevel, pageSize, block);
      parent := Parent(BlockToIdx(maxLevel, pageSize, nodes[block].level, nodes[block].address));
      status := MergeAt(status, block);
      lists := lists[level := RemoveAt(lists[level], k)];
    }

    /** The end of `bfree` at the root: it heads level 0 alone and its bit is cleared. */
    method ReleaseRoot(block: nat)
      requires Valid() && block == 0 && status[0] == Allocated
      modifies this, used, heads
      ensures Valid()
      ensures 0 < used.Length
      ensures status == old(status)[0 := Free]
      ensures lists == old(lists)[0 := [0]]
      ensures used[..] == ClearBit(old(used[..]), 0)
      ensures heads[..] == old(heads[..])[0 := Some(0)]
    {
      RootEffect(maxLevel, pageSize, status, used[..], nodes[..], heads[..], lists);
      heads[0] := Some(block);
      MarkUnused(block);
      status := status[0 := Free];
      lists := lists[0 := [0]];
    }

    /**
     * One round of `bfree`'s loop on allocated non-root node `block` of
     * level `level`: when its buddy is in use the block goes onto its list
     * and `bfree` is done; otherwise the two merge and the round yields
     * their parent, whose own release is the rest of the work.
     */
    method FreeStep(block: nat, level: nat) returns (done: bool, parent: nat)
      requires Valid() && block < |status| && status[block] == Allocated && 1 <= level == LevelOf(block)
      modifies this, used, nodes, heads
      ensures Valid() && |old(status)| == NumNodes(maxLevel)
      ensures done ==> status == ReleaseStatus(maxLevel, old(status), block)
      ensures done ==> block == ReleasedAt(maxLevel, old(status), block) && heads[level] == Some(block)
      ensures !done ==> parent == Parent(block) && parent < |status| && status[parent] == Allocated &&
                        LevelOf(parent) == level - 1 &&
                        ReleaseStatus(maxLevel, status, parent) == ReleaseStatus(maxLevel, old(status), block) &&
                        ReleasedAt(maxLevel, status, parent) == ReleasedAt(maxLevel, old(status), block)
    {
      SiblingInRange(maxLevel, block);
      if BuddyUsed(block) {
        Release(block, level);
        done, parent := true, block;
      } else {
        ghost var k;
        done := false;
        parent, k := Merge(block, level);
      }
    }

    /**
     * `bfree`: give back allocated block `b`. While its buddy is free the
     * two merge into their parent; the last block goes onto its list (or,
     * for the whole arena, becomes the head of level 0).
     */
    method Bfree(b: nat)
      requires Valid() && b < |status| && status[b] == Allocated
      modifies this, used, nodes, heads
      ensures Valid()
      ensures status == ReleaseStatus(maxLevel, old(status), b)
      ensures forall i :: 0 <= i < |status| ==> (status[i] == Allocated <==> old(status)[i] == Allocated && i != b)
      ensures Total(maxLevel, status, Allocated) + Weight(maxLevel, b) == Total(maxLevel, old(status), Allocated)
      ensures LevelOf(ReleasedAt(maxLevel, old(status), b)) <= LevelOf(b) <= maxLevel
      ensures ReleasedAt(maxLevel, old(status), b) < |status|
      ensures AncestorAt(b, LevelOf(ReleasedAt(maxLevel, old(status), b))) == ReleasedAt(maxLevel, old(status), b)
      ensures status[ReleasedAt(maxLevel, old(status), b)] == Free
      ensures heads[LevelOf(ReleasedAt(maxLevel, old(status), b))] == Some(ReleasedAt(maxLevel, old(status), b))
    {
      ghost var st0 := status;
      ReleasedAtFree(maxLevel, status, b);
      ReleaseCorrect(maxLevel, status, b);
      assert nodes[b].level == LevelOf(b);
      var block: nat := b;
      if nodes[b].level != 0 {
        var level := nodes[b].level;
        while true
          invariant Valid() && block < |status| && status[block] == Allocated
          invariant 1 <= level == LevelOf(block)
          invariant ReleaseStatus(maxLevel, status, block) == ReleaseStatus(maxLevel, st0, b)
          invariant ReleasedAt(maxLevel, status, block) == ReleasedAt(maxLevel, st0, b)
          decreases level
        {
          var done;
          done, block := FreeStep(block, level);
          if done {
            return;
          }
          level := level - 1;
          if level == 0 {
            break;
          }
        }
      }
      ReleaseRoot(block);
    }
  }
}
