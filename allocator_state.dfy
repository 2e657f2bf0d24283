/**
 * The representation invariant of a buddy allocator and the effect of each
 * step of `balloc` and `bfree` on it, stated on snapshots of the three
 * arrays the allocator owns (the `used_index` bitmap, the block records and
 * the per-level list heads) and on the abstract status of every node.
 */
module AllocatorState {
  import opened Wrappers
  import opened Geometry
  import opened TreeIndex
  import opened Bitset
  import opened FreeList
  import opened StatusTree

  /**
   * The sizes `buddy_allocator_create` fixes: pages of `2^pso` bytes (the
   * arena's byte size must fit 32 bits), one list head per level, a bit
   * per node and a record per node.
   */
  ghost predicate Sized(ml: nat, pso: nat, ps: nat, numHeads: nat, numBytes: nat, numRecs: nat)
  {
    ml + pso <= 31 && ps == Pow2(pso) &&
    numHeads == ml + 1 && numBytes == NumBytesForBitset(NumNodes(ml)) && numRecs == NumNodes(ml)
  }

  /**
   * The bitmap holds a bit per node, set exactly for allocated and split
   * nodes; the padding bits after the last node stay clear.
   */
  ghost predicate BitsMatch(st: seq<Status>, bits: seq<bv8>)
  {
    |st| <= |bits| * 8 &&
    (forall j {:trigger Bit(bits, j)} :: 0 <= j < |st| ==> (Bit(bits, j) <==> st[j].Busy())) &&
    (forall j {:trigger Bit(bits, j)} :: |st| <= j < |bits| * 8 ==> !Bit(bits, j))
  }

  /**
   * Every live node's record carries its own level and address, and a node
   * that is not free is linked into no list.
   */
  ghost predicate RecordsMatch(ml: nat, ps: nat, st: seq<Status>, recs: seq<Block>)
  {
    |recs| == |st| &&
    forall i {:trigger st[i]} {:trigger recs[i]} :: 0 <= i < |st| && st[i] != Absent ==>
      LevelOf(i) <= ml && recs[i].level == LevelOf(i) && recs[i].address == AddrOf(ml, ps, i) &&
      (st[i].Busy() ==> recs[i].next == None && recs[i].prev == None)
  }

  /** Level `l`'s list starts at `hd[l]` and threads the records `lists[l]`. */
  ghost predicate ListsLinked(recs: seq<Block>, hd: seq<Option<nat>>, lists: seq<seq<nat>>)
  {
    |hd| == |lists| &&
    forall l :: 0 <= l < |lists| ==> Linked(recs, hd[l], lists[l])
  }

  /** Each level's head is the first node of its list, or none for an empty list. */
  ghost predicate HeadsOf(hd: seq<Option<nat>>, lists: seq<seq<nat>>)
  {
    |hd| == |lists| &&
    forall l :: 0 <= l < |lists| ==> hd[l] == if lists[l] == [] then None else Some(lists[l][0])
  }

  /** Level `l`'s list only holds nodes of level `l`. */
  ghost predicate ListsLevels(lists: seq<seq<nat>>)
  {
    forall l, x {:trigger x in lists[l]} :: 0 <= l < |lists| && x in lists[l] ==> LevelOf(x) == l
  }

  /** Every listed node is free. */
  ghost predicate ListedFree(st: seq<Status>, lists: seq<seq<nat>>)
  {
    forall l: int, x: nat {:trigger x in lists[l]} :: 0 <= l < |lists| && x in lists[l] ==> x < |st| && st[x] == Free
  }

  /** The lists hold exactly the free nodes. */
  ghost predicate FreeListed(st: seq<Status>, lists: seq<seq<nat>>)
  {
    ListedFree(st, lists) &&
    forall x {:trigger st[x]} :: 0 <= x < |st| && st[x] == Free ==> LevelOf(x) < |lists| && x in lists[LevelOf(x)]
  }

  /**
   * The whole invariant: the status is a sound buddy tree (`hole` is the
   * node `balloc` is splitting through, -1 between calls) and the bitmap,
   * the records and the lists all agree with it.
   */
  ghost predicate Inv(ml: nat, ps: nat, st: seq<Status>, bits: seq<bv8>, recs: seq<Block>,
                      hd: seq<Option<nat>>, lists: seq<seq<nat>>, hole: int)
  {
    Sound(ml, st, hole) && |lists| == ml + 1 &&
    BitsMatch(st, bits) && RecordsMatch(ml, ps, st, recs) &&
    ListsLinked(recs, hd, lists) && ListsLevels(lists) && FreeListed(st, lists)
  }

  /** `bits'` is `bits` with bit `x`, one of the first `n`, set to `v`. */
  ghost predicate BitSet(bits: seq<bv8>, bits': seq<bv8>, n: nat, x: nat, v: bool)
  {
    |bits'| == |bits| && x < n <= |bits| * 8 &&
    forall j :: 0 <= j < |bits| * 8 ==> (Bit(bits', j) <==> if j == x then v else Bit(bits, j))
  }

  /** Every record keeps its level and address. */
  ghost predicate SameGeometry(recs: seq<Block>, recs': seq<Block>)
  {
    |recs'| == |recs| &&
    forall i :: 0 <= i < |recs| ==> recs'[i].level == recs[i].level && recs'[i].address == recs[i].address
  }

  /* ---------------------------------------------------------------- */
  /* Generic facts about the lists                                     */
  /* ---------------------------------------------------------------- */

  /** Replacing one level's list leaves every other level's list intact. */
  lemma {:induction false} ListsLinkedUpdate(recs: seq<Block>, recs': seq<Block>, hd: seq<Option<nat>>,
                          lists: seq<seq<nat>>, m: nat, h': Option<nat>, s': seq<nat>)
    requires ListsLinked(recs, hd, lists) && ListsLevels(lists) && m < |lists| && |recs'| == |recs|
    requires Linked(recs', h', s') && forall x {:trigger x in s'} :: x in s' ==> LevelOf(x) == m
    requires forall i {:trigger recs'[i]} :: 0 <= i < |recs| && LevelOf(i) != m ==> recs'[i] == recs[i]
    ensures ListsLinked(recs', hd[m := h'], lists[m := s']) && ListsLevels(lists[m := s'])
  {
    forall l | 0 <= l < |lists| && l != m ensures Linked(recs', hd[l], lists[l]) {
      forall x | x in lists[l] ensures recs'[x] == recs[x] {
        assert LevelOf(x) == l;
        assert x < |recs| by {
          var k :| 0 <= k < |lists[l]| && lists[l][k] == x;
        }
      }
      LinkedFrame(recs, recs', hd[l], lists[l]);
    }
  }

  /**
   * Pushing the halves `left` and `left + 1` of a split node onto level
   * `l`'s list, where the records of nothing else on that list and of no
   * other level change, keeps every list linked.
   */
  lemma {:induction false} PushHalves(recs: seq<Block>, recs': seq<Block>, hd: seq<Option<nat>>,
                   lists: seq<seq<nat>>, l: nat, left: nat)
    requires ListsLinked(recs, hd, lists) && ListsLevels(lists) && l < |lists| && |recs'| == |recs|
    requires LevelOf(left) == l && LevelOf(left + 1) == l
    requires Linked(recs', Some(left + 1), [left + 1, left] + lists[l])
    requires forall i :: 0 <= i < |recs| && i != left && i != left + 1 && i !in lists[l] ==> recs'[i] == recs[i]
    ensures ListsLinked(recs', hd[l := Some(left + 1)], lists[l := [left + 1, left] + lists[l]])
  {
    PushLevels(lists, l, left);
    forall i | 0 <= i < |recs| && LevelOf(i) != l ensures recs'[i] == recs[i] {
      assert i != left && i != left + 1 && i !in lists[l];
    }
    ListsLinkedUpdate(recs, recs', hd, lists, l, Some(left + 1), [left + 1, left] + lists[l]);
  }

  /** Pushing two nodes of level `l` onto level `l`'s list keeps every list on its level. */
  lemma {:induction false} PushLevels(lists: seq<seq<nat>>, l: nat, left: nat)
    requires ListsLevels(lists) && l < |lists| && LevelOf(left) == l && LevelOf(left + 1) == l
    ensures forall x :: x in [left + 1, left] + lists[l] ==> LevelOf(x) == l
    ensures ListsLevels(lists[l := [left + 1, left] + lists[l]])
  {
    var t := [left + 1, left] + lists[l];
    forall x | x in t ensures LevelOf(x) == l {
      if x != left && x != left + 1 {
        assert x in lists[l];
      }
    }
  }

  /** A list member's links only change where a step's frame allows. */
  lemma {:induction false} LevelFrame(recs: seq<Block>, recs': seq<Block>, lists: seq<seq<nat>>, m: nat)
    requires ListsLevels(lists) && m < |lists| && |recs'| == |recs|
    requires forall i :: 0 <= i < |recs| && i !in lists[m] ==> recs'[i] == recs[i]
    ensures forall i {:trigger recs'[i]} :: 0 <= i < |recs| && LevelOf(i) != m ==> recs'[i] == recs[i]
  {
  }

  /** Removing a node that stops being free from its list keeps the lists exact. */
  lemma {:induction false} FreeListedDelete(st: seq<Status>, st': seq<Status>, lists: seq<seq<nat>>, l: nat, k: nat)
    requires FreeListed(st, lists) && ListsLevels(lists) && l < |lists| && k < |lists[l]|
    requires Distinct(lists[l]) && |st'| == |st|
    requires lists[l][k] < |st| && st'[lists[l][k]] != Free
    requires forall i :: 0 <= i < |st| && i != lists[l][k] ==> (st'[i] == Free <==> st[i] == Free)
    ensures FreeListed(st', lists[l := lists[l][..k] + lists[l][k + 1..]])
  {
    var s := lists[l];
    var t := s[..k] + s[k + 1..];
    var lists' := lists[l := t];
    assert ListedFree(st', lists') by {
      forall m: int, x: nat {:trigger x in lists'[m]} | 0 <= m < |lists'| && x in lists'[m] ensures x < |st'| && st'[x] == Free {
        if m == l {
          var j :| 0 <= j < |t| && t[j] == x;
          var j' := if j < k then j else j + 1;
          assert x == s[j'] && j' != k;
          DistinctAt(s, j', k);
          assert x in s && x != s[k];
        } else {
          assert x in lists[m] && LevelOf(x) == m;
          assert s[k] in s && LevelOf(s[k]) == l;
          assert x != s[k] && st[x] == Free;
        }
      }
    }
    forall x | 0 <= x < |st'| && st'[x] == Free ensures LevelOf(x) < |lists'| && x in lists'[LevelOf(x)] {
      assert x != s[k] && st[x] == Free;
      assert LevelOf(x) < |lists| && x in lists[LevelOf(x)];
      if LevelOf(x) == l {
        var j :| 0 <= j < |s| && s[j] == x;
        assert j != k;
        if j < k {
          assert t[j] == x;
        } else {
          assert t[j - 1] == x;
        }
      } else {
        assert lists'[LevelOf(x)] == lists[LevelOf(x)];
      }
    }
  }

  /** Pushing a node that becomes free onto its level's list keeps the lists exact. */
  lemma {:induction false} FreeListedInsert(st: seq<Status>, st': seq<Status>, lists: seq<seq<nat>>, x: nat)
    requires FreeListed(st, lists) && ListsLevels(lists) && LevelOf(x) < |lists|
    requires |st'| == |st| && x < |st| && st'[x] == Free
    requires forall i :: 0 <= i < |st| && i != x ==> (st'[i] == Free <==> st[i] == Free)
    ensures FreeListed(st', lists[LevelOf(x) := [x] + lists[LevelOf(x)]])
    ensures ListsLevels(lists[LevelOf(x) := [x] + lists[LevelOf(x)]])
  {
    var l := LevelOf(x);
    var lists' := lists[l := [x] + lists[l]];
    forall m, y | 0 <= m < |lists'| && y in lists'[m]
      ensures y < |st'| && st'[y] == Free && LevelOf(y) == m
    {
      if m != l {
        assert y in lists[m];
      } else if y != x {
        assert y in lists[l];
      }
    }
    forall y | 0 <= y < |st'| && st'[y] == Free ensures LevelOf(y) < |lists'| && y in lists'[LevelOf(y)] {
      if y != x {
        assert y in lists[LevelOf(y)];
      }
    }
  }

  /** A node that is not free is on no list. */
  lemma {:induction false} BusyUnlisted(st: seq<Status>, lists: seq<seq<nat>>, l: nat)
    requires ListedFree(st, lists) && l < |lists|
    ensures forall i :: 0 <= i < |st| && st[i] != Free ==> i !in lists[l]
  {
  }

  /** Changing one node's bit along with its busy state keeps the bitmap exact. */
  lemma {:induction false} BitsStep(st: seq<Status>, st': seq<Status>, bits: seq<bv8>, bits': seq<bv8>, x: nat, v: bool)
    requires BitsMatch(st, bits) && BitSet(bits, bits', |st|, x, v) && |st'| == |st|
    requires x < |st| ==> st'[x].Busy() == v
    requires forall i :: 0 <= i < |st| && i != x ==> st'[i].Busy() == st[i].Busy()
    ensures BitsMatch(st', bits')
  {
  }

  /* ---------------------------------------------------------------- */
  /* create                                                            */
  /* ---------------------------------------------------------------- */

  /** A fresh allocator: a zeroed bitmap, the root record, the root alone on level 0. */
  lemma {:induction false} InitialInv(ml: nat, ps: nat, bits: seq<bv8>, recs: seq<Block>, hd: seq<Option<nat>>,
                   lists: seq<seq<nat>>)
    requires NumNodes(ml) <= |bits| * 8 && forall j :: 0 <= j < |bits| ==> bits[j] == 0
    requires |recs| == NumNodes(ml) && recs[0] == Block(0, 0, None, None)
    requires |hd| == ml + 1 && hd[0] == Some(0) && forall l :: 1 <= l <= ml ==> hd[l] == None
    requires lists == seq(ml + 1, l => if l == 0 then [0] else [])
    ensures Inv(ml, ps, Initial(ml), bits, recs, hd, lists, -1)
  {
    InitialSound(ml);
    var st := Initial(ml);
    forall j | 0 <= j < |bits| * 8 ensures !Bit(bits, j) {
      assert bits[j / 8] == 0;
    }
    forall l | 0 <= l < |lists| ensures Linked(recs, hd[l], lists[l]) {
      if l == 0 {
        assert lists[0] == [0];
      } else {
        assert lists[l] == [];
      }
    }
    forall l, x | 0 <= l < |lists| && x in lists[l] ensures x < |st| && st[x] == Free && LevelOf(x) == l {
      assert l == 0 && x == 0;
    }
    forall x | 0 <= x < |st| && st[x] == Free ensures LevelOf(x) < |lists| && x in lists[LevelOf(x)] {
      assert x == 0;
      assert lists[0] == [0];
    }
  }

  /* ---------------------------------------------------------------- */
  /* balloc                                                            */
  /* ---------------------------------------------------------------- */

  /**
   * Where the search of `balloc` stops: the deepest level at or above
   * `level` whose list is not empty.
   */
  function DeepestNonEmpty(hd: seq<Option<nat>>, level: nat): (r: Option<nat>)
    requires level < |hd|
    ensures r.None? <==> forall l :: 0 <= l <= level ==> hd[l].None?
    ensures r.Some? ==> r.value <= level && hd[r.value].Some? &&
                        forall l :: r.value < l <= level ==> hd[l].None?
    decreases level
  {
    if hd[level].Some? then Some(level)
    else if level == 0 then None
    else DeepestNonEmpty(hd, level - 1)
  }

  /** A level's list is empty exactly when that level has no free node. */
  lemma {:induction false} EmptyLevel(ml: nat, ps: nat, st: seq<Status>, bits: seq<bv8>, recs: seq<Block>,
                   hd: seq<Option<nat>>, lists: seq<seq<nat>>, hole: int, l: nat)
    requires Inv(ml, ps, st, bits, recs, hd, lists, hole) && l <= ml
    ensures hd[l].None? <==> forall x :: 0 <= x < |st| && LevelOf(x) == l ==> st[x] != Free
    ensures hd[l].Some? ==> hd[l].value < |st| && st[hd[l].value] == Free && LevelOf(hd[l].value) == l
  {
    assert Linked(recs, hd[l], lists[l]);
    if hd[l].Some? {
      assert lists[l][0] in lists[l];
    }
  }

  /**
   * What the search of `balloc` finds: nothing exactly when no level at or
   * above `level` has a free node; otherwise the head of the list it stops
   * on is a free node, and no level between it and `level` has one, so the
   * node is the smallest free block that is large enough.
   */
  lemma {:induction false} SearchFinds(ml: nat, ps: nat, st: seq<Status>, bits: seq<bv8>, recs: seq<Block>,
                   hd: seq<Option<nat>>, lists: seq<seq<nat>>, level: nat)
    requires Inv(ml, ps, st, bits, recs, hd, lists, -1) && level <= ml
    ensures DeepestNonEmpty(hd, level).None? <==> NoFreeUpTo(st, level)
    ensures DeepestNonEmpty(hd, level).Some? ==>
              var found := DeepestNonEmpty(hd, level).value;
              hd[found].Some? && LevelOf(hd[found].value) == found && BestFit(st, hd[found].value, level)
  {
    forall l | 0 <= l <= level
      ensures hd[l].None? <==> forall x :: 0 <= x < |st| && LevelOf(x) == l ==> st[x] != Free
      ensures hd[l].Some? ==> hd[l].value < |st| && st[hd[l].value] == Free && LevelOf(hd[l].value) == l
    {
      EmptyLevel(ml, ps, st, bits, recs, hd, lists, -1, l);
    }
  }

  /** The records after taking free node `c` off list `s`. */
  lemma {:induction false} TakeRecords(ml: nat, ps: nat, st: seq<Status>, recs: seq<Block>, recs': seq<Block>,
                    s: seq<nat>, c: nat)
    requires RecordsMatch(ml, ps, st, recs) && c < |st| && st[c] == Free
    requires forall i :: 0 <= i < |st| && st[i] != Free ==> i !in s
    requires SameGeometry(recs, recs') && recs'[c].next == None && recs'[c].prev == None
    requires forall i :: 0 <= i < |recs| && i !in s ==> recs'[i] == recs[i]
    ensures RecordsMatch(ml, ps, st[c := Allocated], recs')
  {
    var st' := st[c := Allocated];
    forall i | 0 <= i < |st'| && st'[i] != Absent
      ensures LevelOf(i) <= ml && recs'[i].level == LevelOf(i) && recs'[i].address == AddrOf(ml, ps, i)
      ensures st'[i].Busy() ==> recs'[i].next == None && recs'[i].prev == None
    {
      if i != c && st[i].Busy() {
        assert i !in s;
      }
    }
  }

  /** The lists after taking node `c`, the head of level `l`'s list. */
  lemma {:induction false} TakeLists(st: seq<Status>, st': seq<Status>, recs: seq<Block>, recs': seq<Block>,
                  hd: seq<Option<nat>>, lists: seq<seq<nat>>, l: nat, next: Option<nat>)
    requires ListsLinked(recs, hd, lists) && ListsLevels(lists) && FreeListed(st, lists)
    requires l < |lists| && lists[l] != [] && lists[l][0] < |st| && |st'| == |st|
    requires st'[lists[l][0]] != Free
    requires forall i :: 0 <= i < |st| && i != lists[l][0] ==> (st'[i] == Free <==> st[i] == Free)
    requires |recs'| == |recs| && Linked(recs', next, lists[l][1..])
    requires forall i :: 0 <= i < |recs| && i !in lists[l] ==> recs'[i] == recs[i]
    ensures ListsLinked(recs', hd[l := next], lists[l := lists[l][1..]])
    ensures ListsLevels(lists[l := lists[l][1..]])
    ensures FreeListed(st', lists[l := lists[l][1..]])
  {
    PopHead(recs, recs', hd, lists, l, next);
    assert lists[l][..0] + lists[l][1..] == lists[l][1..];
    FreeListedDelete(st, st', lists, l, 0);
  }

  /**
   * Popping the head of level `l`'s list, where only the records of that
   * list's members change, keeps every list linked and on its level.
   */
  lemma {:induction false} PopHead(recs: seq<Block>, recs': seq<Block>, hd: seq<Option<nat>>,
                lists: seq<seq<nat>>, l: nat, next: Option<nat>)
    requires ListsLinked(recs, hd, lists) && ListsLevels(lists) && l < |lists| && lists[l] != []
    requires |recs'| == |recs| && Linked(recs', next, lists[l][1..])
    requires forall i :: 0 <= i < |recs| && i !in lists[l] ==> recs'[i] == recs[i]
    ensures ListsLinked(recs', hd[l := next], lists[l := lists[l][1..]])
    ensures ListsLevels(lists[l := lists[l][1..]])
  {
    var s := lists[l];
    LevelFrame(recs, recs', lists, l);
    assert forall x :: x in s[1..] ==> x in s;
    ListsLinkedUpdate(recs, recs', hd, lists, l, next, s[1..]);
  }

  /**
   * Taking free node `c` off the head of its list and marking it used
   * (the last step of `balloc`) keeps the invariant, with `c` allocated.
   */
  lemma {:induction false} TakeStep(ml: nat, ps: nat, st: seq<Status>, bits: seq<bv8>, recs: seq<Block>,
                 hd: seq<Option<nat>>, lists: seq<seq<nat>>, hole: int, c: nat,
                 bits': seq<bv8>, recs': seq<Block>, next: Option<nat>)
    requires Inv(ml, ps, st, bits, recs, hd, lists, hole)
    requires LevelOf(c) <= ml && hd[LevelOf(c)] == Some(c)
    requires hole == -1 || (c >= 1 && hole == Parent(c))
    requires BitSet(bits, bits', |st|, c, true)
    requires SameGeometry(recs, recs') && recs'[c].next == None && recs'[c].prev == None
    requires Linked(recs', next, lists[LevelOf(c)][1..])
    requires forall i :: 0 <= i < |recs| && i !in lists[LevelOf(c)] ==> recs'[i] == recs[i]
    ensures c < |st| && st[c] == Free
    ensures Inv(ml, ps, st[c := Allocated], bits', recs', hd[LevelOf(c) := next],
                lists[LevelOf(c) := lists[LevelOf(c)][1..]], -1)
  {
    var l := LevelOf(c);
    assert Linked(recs, hd[l], lists[l]);
    assert lists[l][0] == c && c in lists[l];
    var st' := st[c := Allocated];
    TakeSound(ml, st, c, hole);
    BitsStep(st, st', bits, bits', c, true);
    BusyUnlisted(st, lists, l);
    TakeRecords(ml, ps, st, recs, recs', lists[l], c);
    TakeLists(st, st', recs, recs', hd, lists, l, next);
  }

  /** The records after `split` of free node `c` and `delete` of `c` from list `s`. */
  lemma {:induction false} SplitRecords(ml: nat, ps: nat, st: seq<Status>, recs: seq<Block>, recs1: seq<Block>,
                     recs': seq<Block>, s: seq<nat>, s1: seq<nat>, c: nat)
    requires RecordsMatch(ml, ps, st, recs) && c < |st| && st[c] == Free && LevelOf(c) < ml
    requires LeftChild(c) + 1 < |st| && st[LeftChild(c)] == Absent && st[LeftChild(c) + 1] == Absent
    requires forall i :: 0 <= i < |st| && st[i] != Free ==> i !in s && i !in s1
    requires |recs1| == |recs|
    requires recs1[LeftChild(c)].level == LevelOf(c) + 1
    requires recs1[LeftChild(c)].address == AddrOf(ml, ps, LeftChild(c))
    requires recs1[LeftChild(c) + 1].level == LevelOf(c) + 1
    requires recs1[LeftChild(c) + 1].address == AddrOf(ml, ps, LeftChild(c) + 1)
    requires forall i :: 0 <= i < |recs| && i != LeftChild(c) && i != LeftChild(c) + 1 ==>
               recs1[i].level == recs[i].level && recs1[i].address == recs[i].address
    requires forall i :: (0 <= i < |recs| && i != LeftChild(c) && i != LeftChild(c) + 1 && i !in s1) ==>
               recs1[i] == recs[i]
    requires SameGeometry(recs1, recs') && recs'[c].next == None && recs'[c].prev == None
    requires forall i :: 0 <= i < |recs| && i !in s ==> recs'[i] == recs1[i]
    ensures RecordsMatch(ml, ps, SplitAt(st, c), recs')
  {
    var left, right := LeftChild(c), LeftChild(c) + 1;
    ChildLevels(c);
    var st' := SplitAt(st, c);
    forall i | 0 <= i < |st'| && st'[i] != Absent
      ensures LevelOf(i) <= ml && recs'[i].level == LevelOf(i) && recs'[i].address == AddrOf(ml, ps, i)
      ensures st'[i].Busy() ==> recs'[i].next == None && recs'[i].prev == None
    {
      if i != left && i != right && i != c {
        assert st[i] == st'[i];
        if st[i].Busy() {
          assert i !in s && i !in s1;
        }
      }
    }
  }

  /**
   * The lists after one round of `balloc`'s descent on `c`, the head of its
   * level's list: `c` is popped and its halves are pushed onto the next
   * level's list, left half first, so the right half ends up in front.
   */
  ghost function SplitLists(lists: seq<seq<nat>>, c: nat): seq<seq<nat>>
  {
    var l := LevelOf(c);
    if l + 1 < |lists| && lists[l] != [] then
      lists[l + 1 := [LeftChild(c) + 1, LeftChild(c)] + lists[l + 1]][l := lists[l][1..]]
    else
      lists
  }

  /**
   * The free nodes after one round of `balloc`'s descent: `c`, the head of
   * level `l`'s list, is split and popped, and its halves are pushed onto
   * level `l + 1`'s list, right half first.
   */
  lemma {:induction false} SplitFreeListed(st: seq<Status>, lists: seq<seq<nat>>, c: nat)
    requires FreeListed(st, lists) && ListsLevels(lists) && LevelOf(c) + 1 < |lists|
    requires lists[LevelOf(c)] != [] && lists[LevelOf(c)][0] == c && Distinct(lists[LevelOf(c)])
    requires c < |st| && LeftChild(c) + 1 < |st| && st[c] == Free
    requires st[LeftChild(c)] == Absent && st[LeftChild(c) + 1] == Absent
    ensures FreeListed(SplitAt(st, c), SplitLists(lists, c))
  {
    var l := LevelOf(c);
    var left, right := LeftChild(c), LeftChild(c) + 1;
    ChildLevels(c);
    var st1 := st[c := Split];
    var st2 := st1[left := Free];
    var listsA := lists[l := lists[l][1..]];
    PopFreeListed(st, lists, c);
    FreeListedInsert(st1, st2, listsA, left);
    var listsB := listsA[l + 1 := [left] + listsA[l + 1]];
    FreeListedInsert(st2, SplitAt(st, c), listsB, right);
    var listsC := listsB[l + 1 := [right] + listsB[l + 1]];
    assert listsC[l + 1] == [right, left] + lists[l + 1];
    assert listsC == SplitLists(lists, c) by {
      forall m | 0 <= m < |lists| ensures listsC[m] == SplitLists(lists, c)[m] {
      }
    }
  }

  /** Popping free node `c` off the head of its list and marking it split keeps the lists exact. */
  lemma {:induction false} PopFreeListed(st: seq<Status>, lists: seq<seq<nat>>, c: nat)
    requires FreeListed(st, lists) && ListsLevels(lists) && LevelOf(c) < |lists|
    requires lists[LevelOf(c)] != [] && lists[LevelOf(c)][0] == c && Distinct(lists[LevelOf(c)])
    requires c < |st| && st[c] == Free
    ensures FreeListed(st[c := Split], lists[LevelOf(c) := lists[LevelOf(c)][1..]])
    ensures ListsLevels(lists[LevelOf(c) := lists[LevelOf(c)][1..]])
  {
    var l := LevelOf(c);
    var s := lists[l];
    assert s[..0] + s[1..] == s[1..];
    FreeListedDelete(st, st[c := Split], lists, l, 0);
    var listsA := lists[l := s[1..]];
    forall m, x | 0 <= m < |listsA| && x in listsA[m] ensures LevelOf(x) == m {
      if m == l {
        assert x in s;
      } else {
        assert x in lists[m];
      }
    }
  }

  /**
   * The lists after `balloc` takes free node `f`, the head of its level's
   * list, for a request at level `lvl`: one `SplitLists` round per level
   * above `lvl`, then the head of level `lvl`'s list is popped.
   */
  ghost function AllocLists(lists: seq<seq<nat>>, f: nat, lvl: nat): seq<seq<nat>>
    requires LevelOf(f) <= lvl
    decreases lvl - LevelOf(f)
  {
    if LevelOf(f) == lvl then
      if lvl < |lists| && lists[lvl] != [] then lists[lvl := lists[lvl][1..]] else lists
    else
      ChildLevels(f);
      AllocLists(SplitLists(lists, f), LeftChild(f) + 1, lvl)
  }

  /**
   * What one `balloc` does to the lists: the list `f` headed loses its
   * head, each level below it down to `lvl` gains the left half of the
   * node split on the level above, in front of its old list, and every
   * other level keeps its list.
   */
  lemma {:induction false} AllocListsCorrect(lists: seq<seq<nat>>, f: nat, lvl: nat)
    requires LevelOf(f) <= lvl < |lists| && lists[LevelOf(f)] != []
    ensures |AllocLists(lists, f, lvl)| == |lists|
    ensures AllocLists(lists, f, lvl)[LevelOf(f)] == lists[LevelOf(f)][1..]
    ensures forall l :: LevelOf(f) < l <= lvl ==>
              AllocLists(lists, f, lvl)[l] == [LeftChild(AncestorAt(Descend(f, lvl), l - 1))] + lists[l]
    ensures forall l :: 0 <= l < |lists| && (l < LevelOf(f) || lvl < l) ==> AllocLists(lists, f, lvl)[l] == lists[l]
    decreases lvl - LevelOf(f)
  {
    var fl := LevelOf(f);
    if fl < lvl {
      ChildLevels(f);
      var right := LeftChild(f) + 1;
      var lists1 := SplitLists(lists, f);
      assert lists1[fl + 1] == [right, LeftChild(f)] + lists[fl + 1];
      AllocListsCorrect(lists1, right, lvl);
      DescendBelow(f, lvl);
      assert lists1[fl + 1][1..] == [LeftChild(f)] + lists[fl + 1];
    }
  }

  /* ---------------------------------------------------------------- */
  /* bfree                                                             */
  /* ---------------------------------------------------------------- */

  /** The records after pushing allocated node `b` onto list `s`. */
  lemma {:induction false} FreeRecords(ml: nat, ps: nat, st: seq<Status>, recs: seq<Block>, recs': seq<Block>,
                    s: seq<nat>, b: nat)
    requires RecordsMatch(ml, ps, st, recs) && b < |st| && st[b] == Allocated
    requires forall i :: 0 <= i < |st| && st[i] != Free ==> i !in s
    requires SameGeometry(recs, recs')
    requires forall i :: 0 <= i < |recs| && i != b && i !in s ==> recs'[i] == recs[i]
    ensures RecordsMatch(ml, ps, st[b := Free], recs')
  {
    var st' := st[b := Free];
    forall i | 0 <= i < |st'| && st'[i] != Absent
      ensures LevelOf(i) <= ml && recs'[i].level == LevelOf(i) && recs'[i].address == AddrOf(ml, ps, i)
      ensures st'[i].Busy() ==> recs'[i].next == None && recs'[i].prev == None
    {
      if i != b && st[i].Busy() {
        assert i !in s;
      }
    }
  }

  /**
   * The ending of `bfree` when the buddy is in use: clear the bit of
   * allocated node `b` and push it onto its level's list.
   */
  lemma {:induction false} FreeStep(ml: nat, ps: nat, st: seq<Status>, bits: seq<bv8>, recs: seq<Block>,
                 hd: seq<Option<nat>>, lists: seq<seq<nat>>, b: nat,
                 bits': seq<bv8>, recs': seq<Block>)
    requires Inv(ml, ps, st, bits, recs, hd, lists, -1)
    requires b < |st| && st[b] == Allocated
    requires b >= 1 ==> SiblingIdx(b) < |st| && st[SiblingIdx(b)].Busy()
    requires BitSet(bits, bits', |st|, b, false)
    requires SameGeometry(recs, recs')
    requires LevelOf(b) <= ml && Linked(recs', Some(b), [b] + lists[LevelOf(b)])
    requires forall i :: 0 <= i < |recs| && i != b && i !in lists[LevelOf(b)] ==> recs'[i] == recs[i]
    ensures Inv(ml, ps, st[b := Free], bits', recs', hd[LevelOf(b) := Some(b)],
                lists[LevelOf(b) := [b] + lists[LevelOf(b)]], -1)
  {
    var l := LevelOf(b);
    var st' := st[b := Free];
    ReleaseLastSound(ml, st, b);
    BitsStep(st, st', bits, bits', b, false);
    BusyUnlisted(st, lists, l);
    FreeRecords(ml, ps, st, recs, recs', lists[l], b);
    assert forall i :: 0 <= i < |recs| && LevelOf(i) != l ==> i != b && i !in lists[l];
    FreeListedInsert(st, st', lists, b);
    ListsLinkedUpdate(recs, recs', hd, lists, l, Some(b), [b] + lists[l]);
  }

  /** The records after merging allocated node `b` with its buddy, unlinked from list `s`. */
  lemma {:induction false} MergeRecords(ml: nat, ps: nat, st: seq<Status>, recs: seq<Block>, recs': seq<Block>,
                     s: seq<nat>, b: nat)
    requires RecordsMatch(ml, ps, st, recs) && 1 <= b < |st| && SiblingIdx(b) < |st|
    requires st[Parent(b)] == Split
    requires forall i :: 0 <= i < |st| && st[i] != Free ==> i !in s
    requires SameGeometry(recs, recs')
    requires forall i :: 0 <= i < |recs| && i !in s ==> recs'[i] == recs[i]
    ensures RecordsMatch(ml, ps, MergeAt(st, b), recs')
  {
    var st' := MergeAt(st, b);
    forall i | 0 <= i < |st'| && st'[i] != Absent
      ensures LevelOf(i) <= ml && recs'[i].level == LevelOf(i) && recs'[i].address == AddrOf(ml, ps, i)
      ensures st'[i].Busy() ==> recs'[i].next == None && recs'[i].prev == None
    {
      assert st[i] != Absent;
      if st'[i].Busy() {
        assert st[i].Busy();
        assert i !in s;
      }
    }
  }

  /**
   * One merge of `bfree`: clear the bits of allocated node `b` and of its
   * free buddy, unlink the buddy from position `k` of its list; the parent
   * stands for the merged block.
   */
  lemma {:induction false} MergeStep(ml: nat, ps: nat, st: seq<Status>, bits: seq<bv8>, recs: seq<Block>,
                  hd: seq<Option<nat>>, lists: seq<seq<nat>>, b: nat, k: nat,
                  bits1: seq<bv8>, bits': seq<bv8>, recs': seq<Block>, h': Option<nat>)
    requires Inv(ml, ps, st, bits, recs, hd, lists, -1)
    requires 1 <= b < |st| && st[b] == Allocated
    requires SiblingIdx(b) < |st| && !st[SiblingIdx(b)].Busy()
    requires LevelOf(b) <= ml && k < |lists[LevelOf(b)]| && lists[LevelOf(b)][k] == SiblingIdx(b)
    requires BitSet(bits, bits1, |st|, b, false) && BitSet(bits1, bits', |st|, SiblingIdx(b), false)
    requires SameGeometry(recs, recs')
    requires Linked(recs', h', lists[LevelOf(b)][..k] + lists[LevelOf(b)][k + 1..])
    requires forall i :: 0 <= i < |recs| && i !in lists[LevelOf(b)] ==> recs'[i] == recs[i]
    ensures Inv(ml, ps, MergeAt(st, b), bits', recs', hd[LevelOf(b) := h'],
                lists[LevelOf(b) := lists[LevelOf(b)][..k] + lists[LevelOf(b)][k + 1..]], -1)
  {
    var l := LevelOf(b);
    var s := lists[l];
    var sib := SiblingIdx(b);
    var t := s[..k] + s[k + 1..];
    assert Linked(recs, hd[l], s);
    MergeSound(ml, st, b);
    LiveSibling(ml, st, b);
    var st' := MergeAt(st, b);
    var st1 := st[b := Absent];
    BitsStep(st, st1, bits, bits1, b, false);
    BitsStep(st1, st', bits1, bits', sib, false);
    BusyUnlisted(st, lists, l);
    MergeRecords(ml, ps, st, recs, recs', s, b);
    LevelFrame(recs, recs', lists, l);
    assert forall x :: x in t ==> x in s;
    ListsLinkedUpdate(recs, recs', hd, lists, l, h', t);
    FreeListedDelete(st, st', lists, l, k);
  }

  /**
   * The ending of `bfree` at the root: the (allocated) root becomes the one
   * free block of level 0.
   */
  lemma {:induction false} RootStep(ml: nat, ps: nat, st: seq<Status>, bits: seq<bv8>, recs: seq<Block>,
                 hd: seq<Option<nat>>, lists: seq<seq<nat>>, bits': seq<bv8>)
    requires Inv(ml, ps, st, bits, recs, hd, lists, -1)
    requires st[0] == Allocated
    requires BitSet(bits, bits', |st|, 0, false)
    ensures Inv(ml, ps, st[0 := Free], bits', recs, hd[0 := Some(0)], lists[0 := [0]], -1)
  {
    var st' := st[0 := Free];
    ReleaseLastSound(ml, st, 0);
    BitsStep(st, st', bits, bits', 0, false);
    EmptyLevel(ml, ps, st, bits, recs, hd, lists, -1, 0);
    assert Linked(recs, hd[0], lists[0]);
    assert Linked(recs, Some(0), [0]);
    FreeListedInsert(st, st', lists, 0);
    assert [0] + lists[0] == [0];
    ListsLinkedUpdate(recs, recs, hd, lists, 0, Some(0), [0]);
  }
}
