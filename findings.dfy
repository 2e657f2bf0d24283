/**
 * Two places where buddy.c does not do what it evidently means to, each
 * modelled as written next to a lemma that shows the discrepancy. The rest
 * of the model uses the corrected behaviour: `TreeIndex.NumNodes` for the
 * size of the registry and bitmap, and `Buddy.Allocator.Merge` for taking
 * the buddy off its list.
 */
module Findings {
  import opened Wrappers
  import opened Geometry
  import opened TreeIndex
  import opened FreeList

  /** `num_nodes_` as written: `2^max_level - 1`, the node count of a tree one level shorter. */
  function NumNodesAsWritten(maxLevel: nat): nat
  {
    Pow2(maxLevel) - 1
  }

  /**
   * The registry and bitmap sized by `num_nodes_` end just before the first
   * node of level `max_level`: no page-sized block has a record or a bit,
   * and `2^max_level` nodes are missing in all.
   */
  lemma {:induction false} LeavesOutsideRegistryAsWritten(maxLevel: nat)
    ensures forall i :: LevelOf(i) == maxLevel ==> NumNodesAsWritten(maxLevel) <= i
    ensures NumNodes(maxLevel) == NumNodesAsWritten(maxLevel) + Pow2(maxLevel)
    ensures LevelOf(NumNodesAsWritten(maxLevel)) == maxLevel
  {
    forall i | LevelOf(i) == maxLevel
      ensures NumNodesAsWritten(maxLevel) <= i
    {
      LevelBounds(i);
    }
    LevelUnique(Pow2(maxLevel) - 1, maxLevel);
  }

  /**
   * How `bfree` as written takes a free buddy off its list: when the buddy
   * heads the list the head becomes `NULL` and no record changes;
   * otherwise `delete` unlinks it.
   */
  ghost function UnlinkBuddyAsWritten(head: Option<nat>, recs: seq<Block>, buddy: nat): (Option<nat>, seq<Block>)
    requires LinksInRange(recs, buddy)
  {
    if head == Some(buddy) then (None, recs) else (head, DeleteRecs(recs, buddy))
  }

  /**
   * When the buddy heads a list with more blocks behind it, the list as
   * written is left empty although `rest` is not: the free block that
   * followed the buddy is on no list any more (so `balloc` can never hand
   * it out), and it still links back to the buddy, which is about to stop
   * being a block at all.
   */
  lemma {:induction false} UnlinkBuddyAsWrittenLosesBlocks(recs: seq<Block>, buddy: nat, rest: seq<nat>)
    requires Linked(recs, Some(buddy), [buddy] + rest) && rest != []
    ensures LinksInRange(recs, buddy)
    ensures UnlinkBuddyAsWritten(Some(buddy), recs, buddy).0 == None
    ensures UnlinkBuddyAsWritten(Some(buddy), recs, buddy).1[rest[0]].prev == Some(buddy)
  {
    var s := [buddy] + rest;
    assert s[0] == buddy && s[1] == rest[0];
    assert recs[s[0]].next == NextOf(s, 0);
    assert recs[s[1]].prev == PrevOf(s, 1);
  }

  /**
   * The corrected removal, as `Buddy.Allocator.Merge` does it: `delete`
   * the buddy wherever it is and, when it headed the list, let its
   * successor head the list. The blocks behind it stay listed.
   */
  lemma {:induction false} UnlinkHeadBuddyKeepsRest(recs: seq<Block>, buddy: nat, rest: seq<nat>)
    requires Linked(recs, Some(buddy), [buddy] + rest)
    ensures LinksInRange(recs, buddy)
    ensures Linked(DeleteRecs(recs, buddy), recs[buddy].next, rest)
  {
    var s := [buddy] + rest;
    DeleteCorrect(recs, Some(buddy), s, 0);
    assert s[..0] + s[1..] == rest;
  }
}
