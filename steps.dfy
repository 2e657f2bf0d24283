/**
 * The steps of `balloc` and `bfree` written as functions of snapshots of
 * the allocator's arrays: what `split`, `insert`, `delete`, `mark_used` and
 * `mark_unused` leave behind, and, for each step, the invariant it keeps
 * and the facts the next call needs.
 */
module AllocatorSteps {
  import opened Wrappers
  import opened Geometry
  import opened TreeIndex
  import opened Bitset
  import opened FreeList
  import opened StatusTree
  import opened AllocatorState

  /**
   * The records after the first four writes of `split` on node `c`: both
   * halves get the next level, the left half `c`'s address and the right
   * half the address one half-block further on.
   */
  ghost function Halves(ml: nat, ps: nat, recs: seq<Block>, c: nat): (r: seq<Block>)
    requires LeftChild(c) + 1 < |recs| && recs[c].level < ml
    ensures |r| == |recs|
  {
    var lvl := recs[c].level + 1;
    var left := LeftChild(c);
    recs[left := recs[left].(level := lvl, address := recs[c].address)]
        [left + 1 := recs[left + 1].(level := lvl, address := recs[c].address + BlockSizeAtLevel(ml, ps, lvl))]
  }

  /** `Halves` as the two record writes `split` makes. */
  lemma {:induction false} HalvesWrites(ml: nat, ps: nat, recs: seq<Block>, c: nat, leftRec: Block, rightRec: Block)
    requires LeftChild(c) + 1 < |recs| && recs[c].level < ml
    requires leftRec == recs[LeftChild(c)].(level := recs[c].level + 1, address := recs[c].address)
    requires rightRec == recs[LeftChild(c) + 1].(level := recs[c].level + 1,
                           address := recs[c].address + BlockSizeAtLevel(ml, ps, recs[c].level + 1))
    ensures Halves(ml, ps, recs, c) == recs[LeftChild(c) := leftRec][LeftChild(c) + 1 := rightRec]
  {
  }

  /**
   * The records after `split` on node `c`: the halves written, then the
   * left and after it the right half pushed onto the next level's list.
   */
  ghost function SplitRecs(ml: nat, ps: nat, recs: seq<Block>, hd: seq<Option<nat>>, c: nat): (r: seq<Block>)
    requires LeftChild(c) + 1 < |recs| && recs[c].level < ml && recs[c].level + 1 < |hd|
    requires hd[recs[c].level + 1].Some? ==> hd[recs[c].level + 1].value < |recs|
    ensures |r| == |recs|
  {
    var halves := Halves(ml, ps, recs, c);
    InsertRecs(InsertRecs(halves, hd[recs[c].level + 1], LeftChild(c)), Some(LeftChild(c)), LeftChild(c) + 1)
  }

  /** The removal of position `k` from a list. */
  function RemoveAt(s: seq<nat>, k: nat): (r: seq<nat>)
    requires k < |s|
    ensures |r| == |s| - 1
    ensures forall x :: x in r ==> x in s
  {
    s[..k] + s[k + 1..]
  }

  /* ---------------------------------------------------------------- */
  /* balloc                                                            */
  /* ---------------------------------------------------------------- */

  /**
   * Taking the head `c` of its level's list (`mark_used`, then `delete`)
   * allocates it: the invariant holds with `c` allocated and the hole closed.
   */
  lemma {:induction false} TakeEffect(ml: nat, ps: nat, st: seq<Status>, bits: seq<bv8>, recs: seq<Block>,
                   hd: seq<Option<nat>>, lists: seq<seq<nat>>, hole: int, c: nat)
    requires Inv(ml, ps, st, bits, recs, hd, lists, hole)
    requires LevelOf(c) <= ml && hd[LevelOf(c)] == Some(c)
    requires hole == -1 || (c >= 1 && hole == Parent(c))
    ensures c < |st| && st[c] == Free && c / 8 < |bits| && LinksInRange(recs, c)
    ensures lists[LevelOf(c)] != [] && lists[LevelOf(c)][0] == c
    ensures recs[c].level == LevelOf(c) && recs[c].address == AddrOf(ml, ps, c)
    ensures Inv(ml, ps, st[c := Allocated], SetBit(bits, c), DeleteRecs(recs, c),
                hd[LevelOf(c) := recs[c].next], lists[LevelOf(c) := lists[LevelOf(c)][1..]], -1)
  {
    var l := LevelOf(c);
    assert Linked(recs, hd[l], lists[l]);
    assert lists[l][0] == c && c in lists[l];
    SetBitCorrect(bits, c);
    DeleteCorrect(recs, hd[l], lists[l], 0);
    assert lists[l][..0] + lists[l][1..] == lists[l][1..];
    TakeStep(ml, ps, st, bits, recs, hd, lists, hole, c, SetBit(bits, c), DeleteRecs(recs, c), recs[c].next);
  }

  /** The halves carry their own levels and addresses; nothing else changes. */
  lemma {:induction false} HalvesCorrect(ml: nat, ps: nat, recs: seq<Block>, c: nat)
    requires LevelOf(c) < ml && LeftChild(c) + 1 < |recs|
    requires recs[c].level == LevelOf(c) && recs[c].address == AddrOf(ml, ps, c)
    ensures Halves(ml, ps, recs, c)[LeftChild(c)].level == LevelOf(c) + 1
    ensures Halves(ml, ps, recs, c)[LeftChild(c)].address == AddrOf(ml, ps, LeftChild(c))
    ensures Halves(ml, ps, recs, c)[LeftChild(c) + 1].level == LevelOf(c) + 1
    ensures Halves(ml, ps, recs, c)[LeftChild(c) + 1].address == AddrOf(ml, ps, LeftChild(c) + 1)
    ensures forall i :: 0 <= i < |recs| && i != LeftChild(c) && i != LeftChild(c) + 1 ==>
              Halves(ml, ps, recs, c)[i] == recs[i]
  {
    SplitGeometry(ml, ps, c);
  }

  /**
   * `split` on node `c` writes the geometry of its halves and no other
   * record's level or address.
   */
  lemma {:induction false} SplitRecsGeometry(ml: nat, ps: nat, recs: seq<Block>, hd: seq<Option<nat>>, c: nat)
    requires LevelOf(c) < ml && LeftChild(c) + 1 < |recs| && LevelOf(c) + 1 < |hd|
    requires recs[c].level == LevelOf(c) && recs[c].address == AddrOf(ml, ps, c)
    requires hd[LevelOf(c) + 1].Some? ==> hd[LevelOf(c) + 1].value < |recs|
    ensures |SplitRecs(ml, ps, recs, hd, c)| == |recs|
    ensures SplitRecs(ml, ps, recs, hd, c)[LeftChild(c)].level == LevelOf(c) + 1
    ensures SplitRecs(ml, ps, recs, hd, c)[LeftChild(c)].address == AddrOf(ml, ps, LeftChild(c))
    ensures SplitRecs(ml, ps, recs, hd, c)[LeftChild(c) + 1].level == LevelOf(c) + 1
    ensures SplitRecs(ml, ps, recs, hd, c)[LeftChild(c) + 1].address == AddrOf(ml, ps, LeftChild(c) + 1)
    ensures forall i :: 0 <= i < |recs| && i != LeftChild(c) && i != LeftChild(c) + 1 ==>
              SplitRecs(ml, ps, recs, hd, c)[i].level == recs[i].level &&
              SplitRecs(ml, ps, recs, hd, c)[i].address == recs[i].address
  {
    var left := LeftChild(c);
    var recsA := Halves(ml, ps, recs, c);
    HalvesCorrect(ml, ps, recs, c);
    InsertGeometry(recsA, hd[LevelOf(c) + 1], left);
    InsertGeometry(InsertRecs(recsA, hd[LevelOf(c) + 1], left), Some(left), left + 1);
  }

  /**
   * `split` pushes both halves of node `c` onto the list `s` that starts at
   * `h`: the right half heads it, the left half follows, and only the
   * halves and the members of `s` change.
   */
  lemma {:induction false} SplitPushesHalves(ml: nat, ps: nat, recs: seq<Block>, hd: seq<Option<nat>>, c: nat, s: seq<nat>)
    requires LeftChild(c) + 1 < |recs| && recs[c].level < ml && recs[c].level + 1 < |hd|
    requires Linked(recs, hd[recs[c].level + 1], s)
    requires LeftChild(c) !in s && LeftChild(c) + 1 !in s
    ensures hd[recs[c].level + 1].Some? ==> hd[recs[c].level + 1].value < |recs|
    ensures Linked(SplitRecs(ml, ps, recs, hd, c), Some(LeftChild(c) + 1), [LeftChild(c) + 1, LeftChild(c)] + s)
    ensures forall i :: (0 <= i < |recs| && i != LeftChild(c) && i != LeftChild(c) + 1 && i !in s) ==>
              SplitRecs(ml, ps, recs, hd, c)[i] == recs[i]
  {
    var h := hd[recs[c].level + 1];
    var left := LeftChild(c);
    var right := left + 1;
    if h.Some? {
      assert s[0] in s;
    }
    var recsA := Halves(ml, ps, recs, c);
    assert forall x :: x in s ==> recsA[x] == recs[x];
    LinkedFrame(recs, recsA, h, s);
    InsertCorrect(recsA, h, left, s);
    var recsB := InsertRecs(recsA, h, left);
    InsertCorrect(recsB, Some(left), right, [left] + s);
    assert [right] + ([left] + s) == [right, left] + s;
  }

  /**
   * What `split` on node `c` leaves in the records `recs1`, as far as the
   * rest of a round of the descent needs: the halves, with the level and
   * address of their nodes, head the next level's list `s`, and apart from
   * the halves no record's level or address changes and no record off `s`
   * changes at all.
   */
  ghost predicate PushedHalves(ml: nat, ps: nat, recs: seq<Block>, recs1: seq<Block>, s: seq<nat>, c: nat)
  {
    var left := LeftChild(c);
    |recs1| == |recs| && left + 1 < |recs| && LevelOf(left) <= ml && LevelOf(left + 1) <= ml &&
    Linked(recs1, Some(left + 1), [left + 1, left] + s) &&
    recs1[left].level == LevelOf(c) + 1 && recs1[left].address == AddrOf(ml, ps, left) &&
    recs1[left + 1].level == LevelOf(c) + 1 && recs1[left + 1].address == AddrOf(ml, ps, left + 1) &&
    (forall i :: 0 <= i < |recs| && i != left && i != left + 1 ==>
       recs1[i].level == recs[i].level && recs1[i].address == recs[i].address) &&
    (forall i :: 0 <= i < |recs| && i != left && i != left + 1 && i !in s ==> recs1[i] == recs[i])
  }

  /** `SplitRecs` is what `split` leaves when neither half is on the next level's list. */
  lemma {:induction false} SplitRecsPushed(ml: nat, ps: nat, recs: seq<Block>, hd: seq<Option<nat>>,
                        lists: seq<seq<nat>>, c: nat)
    requires ListsLinked(recs, hd, lists) && LevelOf(c) < ml && LevelOf(c) + 1 < |lists|
    requires LeftChild(c) + 1 < |recs| && recs[c].level == LevelOf(c) && recs[c].address == AddrOf(ml, ps, c)
    requires LeftChild(c) !in lists[LevelOf(c) + 1] && LeftChild(c) + 1 !in lists[LevelOf(c) + 1]
    ensures hd[LevelOf(c) + 1].Some? ==> hd[LevelOf(c) + 1].value < |recs|
    ensures PushedHalves(ml, ps, recs, SplitRecs(ml, ps, recs, hd, c), lists[LevelOf(c) + 1], c)
  {
    var l := LevelOf(c) + 1;
    ChildLevels(c);
    assert Linked(recs, hd[l], lists[l]);
    SplitPushesHalves(ml, ps, recs, hd, c, lists[l]);
    SplitRecsGeometry(ml, ps, recs, hd, c);
  }

  /**
   * The facts about free node `c`, the head of its level's list, that
   * `split` and `delete` rely on.
   */
  lemma {:induction false} HeadFacts(ml: nat, ps: nat, st: seq<Status>, recs: seq<Block>,
                  hd: seq<Option<nat>>, lists: seq<seq<nat>>, c: nat)
    requires RecordsMatch(ml, ps, st, recs) && TreeOk(ml, st)
    requires ListsLinked(recs, hd, lists) && ListedFree(st, lists) && |lists| == ml + 1
    requires LevelOf(c) < ml && hd[LevelOf(c)] == Some(c)
    ensures lists[LevelOf(c)] != [] && lists[LevelOf(c)][0] == c
    ensures c < |st| && st[c] == Free && LeftChild(c) + 1 < |st|
    ensures st[LeftChild(c)] == Absent && st[LeftChild(c) + 1] == Absent
    ensures recs[c].level == LevelOf(c) && recs[c].address == AddrOf(ml, ps, c)
    ensures LeftChild(c) !in lists[LevelOf(c) + 1] && LeftChild(c) + 1 !in lists[LevelOf(c) + 1]
  {
    var l := LevelOf(c);
    assert Linked(recs, hd[l], lists[l]);
    assert lists[l][0] in lists[l];
    FreeChildren(ml, st, c);
    BusyUnlisted(st, lists, l + 1);
  }

  /** One round of `balloc`'s descent, as far as the records go; `recs1` is what `split` left. */
  lemma {:induction false} SplitEffectRecords(ml: nat, ps: nat, st: seq<Status>, recs: seq<Block>, recs1: seq<Block>,
                           hd: seq<Option<nat>>, lists: seq<seq<nat>>, c: nat)
    requires RecordsMatch(ml, ps, st, recs) && TreeOk(ml, st)
    requires ListsLinked(recs, hd, lists) && ListsLevels(lists) && ListedFree(st, lists) && |lists| == ml + 1
    requires LevelOf(c) < ml && hd[LevelOf(c)] == Some(c)
    requires PushedHalves(ml, ps, recs, recs1, lists[LevelOf(c) + 1], c)
    ensures LinksInRange(recs1, c)
    ensures RecordsMatch(ml, ps, SplitAt(st, c), DeleteRecs(recs1, c))
  {
    var l := LevelOf(c);
    HeadFacts(ml, ps, st, recs, hd, lists, c);
    ChildLevels(c);
    PushHalves(recs, recs1, hd, lists, l + 1, LeftChild(c));
    assert Linked(recs1, hd[l + 1 := Some(LeftChild(c) + 1)][l], lists[l + 1 := [LeftChild(c) + 1, LeftChild(c)] + lists[l + 1]][l]);
    DeleteCorrect(recs1, hd[l], lists[l], 0);
    BusyUnlisted(st, lists, l);
    BusyUnlisted(st, lists, l + 1);
    SplitRecords(ml, ps, st, recs, recs1, DeleteRecs(recs1, c), lists[l], lists[l + 1], c);
  }

  /** One round of `balloc`'s descent, as far as the links of the lists go; `recs1` is what `split` left. */
  lemma {:induction false} SplitEffectLinks(ml: nat, ps: nat, recs: seq<Block>, recs1: seq<Block>,
                                            hd: seq<Option<nat>>, lists: seq<seq<nat>>, c: nat)
    requires ListsLinked(recs, hd, lists) && ListsLevels(lists) && |lists| == ml + 1
    requires LevelOf(c) < ml && hd[LevelOf(c)] == Some(c) && lists[LevelOf(c)] != [] && lists[LevelOf(c)][0] == c
    requires PushedHalves(ml, ps, recs, recs1, lists[LevelOf(c) + 1], c)
    ensures LinksInRange(recs1, c)
    ensures ListsLinked(DeleteRecs(recs1, c),
                        hd[LevelOf(c) + 1 := Some(LeftChild(c) + 1)][LevelOf(c) := recs1[c].next],
                        lists[LevelOf(c) + 1 := [LeftChild(c) + 1, LeftChild(c)] + lists[LevelOf(c) + 1]]
                             [LevelOf(c) := lists[LevelOf(c)][1..]])
    ensures ListsLevels(lists[LevelOf(c) + 1 := [LeftChild(c) + 1, LeftChild(c)] + lists[LevelOf(c) + 1]]
                             [LevelOf(c) := lists[LevelOf(c)][1..]])
  {
    var l := LevelOf(c);
    var s := lists[l];
    ChildLevels(c);
    PushHalves(recs, recs1, hd, lists, l + 1, LeftChild(c));
    PushLevels(lists, l + 1, LeftChild(c));
    var hd1 := hd[l + 1 := Some(LeftChild(c) + 1)];
    var lists1 := lists[l + 1 := [LeftChild(c) + 1, LeftChild(c)] + lists[l + 1]];
    assert Linked(recs1, hd1[l], lists1[l]);
    DeleteCorrect(recs1, hd[l], s, 0);
    assert s[..0] + s[1..] == s[1..];
    PopHead(recs1, DeleteRecs(recs1, c), hd1, lists1, l, recs1[c].next);
  }

  /** Setting the bit of the node `split` turns into a split node keeps the bitmap exact. */
  lemma {:induction false} SplitEffectBits(st: seq<Status>, bits: seq<bv8>, c: nat)
    requires BitsMatch(st, bits) && LeftChild(c) + 1 < |st| && st[c] == Free
    requires st[LeftChild(c)] == Absent && st[LeftChild(c) + 1] == Absent
    ensures c / 8 < |bits|
    ensures BitsMatch(SplitAt(st, c), SetBit(bits, c))
  {
    SetBitCorrect(bits, c);
    BitsStep(st, SplitAt(st, c), bits, SetBit(bits, c), c, true);
  }

  /**
   * One round of `balloc`'s descent (`split`, then `delete` of the head,
   * then `mark_used`) on free node `c` heading its list: the invariant holds
   * with `c` split and `c` as the hole.
   */
  lemma {:induction false} SplitEffect(ml: nat, ps: nat, st: seq<Status>, bits: seq<bv8>, recs: seq<Block>,
                    hd: seq<Option<nat>>, lists: seq<seq<nat>>, hole: int, c: nat)
    requires Inv(ml, ps, st, bits, recs, hd, lists, hole)
    requires LevelOf(c) < ml && hd[LevelOf(c)] == Some(c)
    requires hole == -1 || (c >= 1 && hole == Parent(c))
    ensures c < |st| && st[c] == Free && c / 8 < |bits| && LeftChild(c) + 1 < |recs|
    ensures lists[LevelOf(c)] != [] && lists[LevelOf(c)][0] == c
    ensures recs[c].level == LevelOf(c) && recs[c].address == AddrOf(ml, ps, c)
    ensures hd[LevelOf(c) + 1].Some? ==> hd[LevelOf(c) + 1].value < |recs|
    ensures LinksInRange(SplitRecs(ml, ps, recs, hd, c), c)
    ensures Inv(ml, ps, SplitAt(st, c), SetBit(bits, c), DeleteRecs(SplitRecs(ml, ps, recs, hd, c), c),
                hd[LevelOf(c) + 1 := Some(LeftChild(c) + 1)][LevelOf(c) := SplitRecs(ml, ps, recs, hd, c)[c].next],
                SplitLists(lists, c), c)
  {
    HeadFacts(ml, ps, st, recs, hd, lists, c);
    SplitSound(ml, st, c, hole);
    SplitEffectBits(st, bits, c);
    SplitRecsPushed(ml, ps, recs, hd, lists, c);
    SplitEffectRecords(ml, ps, st, recs, SplitRecs(ml, ps, recs, hd, c), hd, lists, c);
    SplitEffectLinks(ml, ps, recs, SplitRecs(ml, ps, recs, hd, c), hd, lists, c);
    assert Linked(recs, hd[LevelOf(c)], lists[LevelOf(c)]);
    SplitFreeListed(st, lists, c);
  }

  /** What the statements of one round of `balloc`'s descent need to know before they run. */
  lemma {:induction false} SplitHeadFacts(ml: nat, ps: nat, st: seq<Status>, bits: seq<bv8>, recs: seq<Block>,
                          hd: seq<Option<nat>>, lists: seq<seq<nat>>, hole: int, c: nat)
    requires Inv(ml, ps, st, bits, recs, hd, lists, hole)
    requires LevelOf(c) < ml && hd[LevelOf(c)] == Some(c)
    requires hole == -1 || (c >= 1 && hole == Parent(c))
    ensures c < |st| && st[c] == Free && c / 8 < |bits| && LeftChild(c) + 1 < |recs|
    ensures lists[LevelOf(c)] != [] && LeftChild(c) + 1 < |st|
    ensures recs[c].level == LevelOf(c) && recs[c].address == AddrOf(ml, ps, c)
    ensures hd[LevelOf(c) + 1].Some? ==> hd[LevelOf(c) + 1].value < |recs|
    ensures LinksInRange(SplitRecs(ml, ps, recs, hd, c), c)
    ensures DeleteRecs(SplitRecs(ml, ps, recs, hd, c), c)[c].level == LevelOf(c)
    ensures DeleteRecs(SplitRecs(ml, ps, recs, hd, c), c)[c].address == AddrOf(ml, ps, c)
  {
    SplitEffect(ml, ps, st, bits, recs, hd, lists, hole, c);
    var st' := SplitAt(st, c);
    assert st'[c] != Absent;
  }

  /* ---------------------------------------------------------------- */
  /* bfree                                                             */
  /* ---------------------------------------------------------------- */

  /**
   * The ending of `bfree` when the buddy is in use (`mark_unused`, then
   * `insert`): allocated node `b` becomes free and heads its level's list.
   */
  lemma {:induction false} FreeEffect(ml: nat, ps: nat, st: seq<Status>, bits: seq<bv8>, recs: seq<Block>,
                   hd: seq<Option<nat>>, lists: seq<seq<nat>>, b: nat)
    requires Inv(ml, ps, st, bits, recs, hd, lists, -1)
    requires b < |st| && st[b] == Allocated
    requires b >= 1 ==> SiblingIdx(b) < |st| && st[SiblingIdx(b)].Busy()
    ensures LevelOf(b) <= ml && b / 8 < |bits| && b < |recs|
    ensures recs[b].level == LevelOf(b) && recs[b].address == AddrOf(ml, ps, b)
    ensures hd[LevelOf(b)].Some? ==> hd[LevelOf(b)].value < |recs|
    ensures Inv(ml, ps, st[b := Free], ClearBit(bits, b), InsertRecs(recs, hd[LevelOf(b)], b),
                hd[LevelOf(b) := Some(b)], lists[LevelOf(b) := [b] + lists[LevelOf(b)]], -1)
  {
    var l := LevelOf(b);
    BusyUnlisted(st, lists, l);
    assert Linked(recs, hd[l], lists[l]);
    InsertCorrect(recs, hd[l], b, lists[l]);
    InsertGeometry(recs, hd[l], b);
    ClearBitCorrect(bits, b);
    FreeStep(ml, ps, st, bits, recs, hd, lists, b, ClearBit(bits, b), InsertRecs(recs, hd[l], b));
  }

  /**
   * One merge of `bfree` when the buddy is free (`mark_unused` of the block,
   * `delete` of the buddy, `mark_unused` of the buddy): the two become
   * their allocated parent. `k` is the buddy's position on its list.
   */
  lemma {:induction false} MergeEffect(ml: nat, ps: nat, st: seq<Status>, bits: seq<bv8>, recs: seq<Block>,
                    hd: seq<Option<nat>>, lists: seq<seq<nat>>, b: nat) returns (k: nat)
    requires Inv(ml, ps, st, bits, recs, hd, lists, -1)
    requires 1 <= b < |st| && st[b] == Allocated
    requires SiblingIdx(b) < |st| && !st[SiblingIdx(b)].Busy()
    ensures LevelOf(b) <= ml && LevelOf(SiblingIdx(b)) == LevelOf(b)
    ensures b / 8 < |bits| && SiblingIdx(b) / 8 < |bits|
    ensures recs[b].level == LevelOf(b) && recs[b].address == AddrOf(ml, ps, b)
    ensures LinksInRange(recs, SiblingIdx(b))
    ensures DeleteRecs(recs, SiblingIdx(b))[b] == recs[b]
    ensures DeleteRecs(recs, SiblingIdx(b))[SiblingIdx(b)].level == LevelOf(b)
    ensures DeleteRecs(recs, SiblingIdx(b))[SiblingIdx(b)].address == AddrOf(ml, ps, SiblingIdx(b))
    ensures k < |lists[LevelOf(b)]|
    ensures Inv(ml, ps, MergeAt(st, b), ClearBit(ClearBit(bits, b), SiblingIdx(b)), DeleteRecs(recs, SiblingIdx(b)),
                hd[LevelOf(b) := if hd[LevelOf(b)] == Some(SiblingIdx(b)) then recs[SiblingIdx(b)].next else hd[LevelOf(b)]],
                lists[LevelOf(b) := RemoveAt(lists[LevelOf(b)], k)], -1)
  {
    var l := LevelOf(b);
    var sib := SiblingIdx(b);
    var s := lists[l];
    LiveSibling(ml, st, b);
    SiblingInRange(ml, b);
    assert sib in s;
    k :| 0 <= k < |s| && s[k] == sib;
    assert Linked(recs, hd[l], s);
    assert hd[l] == Some(sib) <==> k == 0;
    BusyUnlisted(st, lists, l);
    DeleteCorrect(recs, hd[l], s, k);
    ClearBitCorrect(bits, b);
    ClearBitCorrect(ClearBit(bits, b), sib);
    MergeStep(ml, ps, st, bits, recs, hd, lists, b, k, ClearBit(bits, b), ClearBit(ClearBit(bits, b), sib),
              DeleteRecs(recs, sib), if k == 0 then recs[sib].next else hd[l]);
  }

  /**
   * The ending of `bfree` at the root (`level[0]` set to the root, then
   * `mark_unused`): the allocated root becomes the one free block.
   */
  lemma {:induction false} RootEffect(ml: nat, ps: nat, st: seq<Status>, bits: seq<bv8>, recs: seq<Block>,
                   hd: seq<Option<nat>>, lists: seq<seq<nat>>)
    requires Inv(ml, ps, st, bits, recs, hd, lists, -1)
    requires st[0] == Allocated
    ensures 0 < |recs| && 0 < |hd| && 0 < |bits|
    ensures recs[0].level == LevelOf(0) && recs[0].address == AddrOf(ml, ps, 0)
    ensures Inv(ml, ps, st[0 := Free], ClearBit(bits, 0), recs, hd[0 := Some(0)], lists[0 := [0]], -1)
  {
    ClearBitCorrect(bits, 0);
    RootStep(ml, ps, st, bits, recs, hd, lists, ClearBit(bits, 0));
  }
}
