/**
 * The abstract state of a buddy allocator: the status of every node of the
 * complete tree with levels `0..max_level`.
 *
 * A node is live when it is the root or its parent is split. A live node is
 * free (on its level's list), allocated (handed out) or split (its two
 * halves are live); every other node is absent. The busy bit of buddy.c is
 * set exactly for allocated and split nodes.
 *
 * `AllocStatus` is what `balloc` does to this state and `ReleaseStatus` what
 * `bfree` does; the lemmas show both keep the tree well formed, coalesced
 * and tiled, change the set of allocated blocks by exactly one block, and
 * that releasing an allocation restores the state before it.
 */
module StatusTree {
  import opened Geometry
  import opened TreeIndex

  datatype Status = Absent | Free | Allocated | Split
  {
    /** The busy bit of buddy.c: set for allocated and split nodes. */
    predicate Busy()
    {
      Allocated? || Split?
    }
  }

  /**
   * The shape every reachable state has: the root is live, a non-root node
   * is live exactly when its parent is split, and a split node's halves
   * (`2i+1` and `2i+2`) are nodes of the tree.
   */
  ghost predicate TreeOk(ml: nat, st: seq<Status>)
  {
    |st| == NumNodes(ml) &&
    st[0] != Absent &&
    (forall i {:trigger st[Parent(i)]} :: 1 <= i < |st| ==> (st[i] != Absent <==> st[Parent(i)] == Split)) &&
    (forall i :: 0 <= i < |st| && st[i] == Split ==> 2 * i + 2 < |st|)
  }

  /** Only nodes above the last level are split. */
  lemma {:induction false} SplitLevel(ml: nat, st: seq<Status>, i: nat)
    requires TreeOk(ml, st) && i < |st| && st[i] == Split
    ensures LevelOf(i) < ml
  {
    ChildLevels(i);
    NodesInRange(ml, LeftChild(i) + 1);
  }

  /**
   * Buddies are merged: no split node other than `hole` has two free
   * halves. (`hole` is the node `balloc` has just split and is about to
   * split further; -1 stands for none.)
   */
  ghost predicate CoalescedBut(st: seq<Status>, hole: int)
  {
    forall i :: 0 <= i < |st| && i != hole && st[i] == Split && LeftChild(i) + 1 < |st| ==>
      st[LeftChild(i)] != Free || st[LeftChild(i) + 1] != Free
  }

  /** The size of node `i` in pages. */
  function Weight(ml: nat, i: nat): nat
  {
    if LevelOf(i) <= ml then Pow2(ml - LevelOf(i)) else 0
  }

  /** Pages covered by the nodes `j..` whose status is `want`. */
  ghost function SumFrom(ml: nat, st: seq<Status>, want: Status, j: nat): nat
    decreases |st| - j
  {
    if j >= |st| then 0
    else (if st[j] == want then Weight(ml, j) else 0) + SumFrom(ml, st, want, j + 1)
  }

  /** Pages covered by the nodes whose status is `want`. */
  ghost function Total(ml: nat, st: seq<Status>, want: Status): nat
  {
    SumFrom(ml, st, want, 0)
  }

  /** The free and the allocated blocks together cover the `2^ml` pages of the arena. */
  ghost predicate Tiled(ml: nat, st: seq<Status>)
  {
    Total(ml, st, Free) + Total(ml, st, Allocated) == Pow2(ml)
  }

  ghost predicate Sound(ml: nat, st: seq<Status>, hole: int)
  {
    TreeOk(ml, st) && CoalescedBut(st, hole) && Tiled(ml, st)
  }

  /** A node's weight halves one level down. */
  lemma {:induction false} WeightOfChildren(ml: nat, i: nat)
    requires LevelOf(i) < ml
    ensures Weight(ml, LeftChild(i)) == Weight(ml, LeftChild(i) + 1)
    ensures Weight(ml, i) == 2 * Weight(ml, LeftChild(i))
  {
    ChildLevels(i);
    assert ml - LevelOf(i) == (ml - LevelOf(i) - 1) + 1;
  }

  /** Changing the status of one node changes each total by that node's weight only. */
  lemma {:induction false} SumUpdate(ml: nat, st: seq<Status>, want: Status, x: nat, v: Status, j: nat)
    requires x < |st|
    ensures SumFrom(ml, st[x := v], want, j) + (if j <= x && st[x] == want then Weight(ml, x) else 0)
         == SumFrom(ml, st, want, j) + (if j <= x && v == want then Weight(ml, x) else 0)
    decreases |st| - j
  {
    if j < |st| {
      SumUpdate(ml, st, want, x, v, j + 1);
    }
  }

  lemma {:induction false} TotalUpdate(ml: nat, st: seq<Status>, want: Status, x: nat, v: Status)
    requires x < |st|
    ensures Total(ml, st[x := v], want) + (if st[x] == want then Weight(ml, x) else 0)
         == Total(ml, st, want) + (if v == want then Weight(ml, x) else 0)
  {
    SumUpdate(ml, st, want, x, v, 0);
  }

  /** In a tree of the right size, a total is zero exactly when no node has that status. */
  lemma {:induction false} SumZero(ml: nat, st: seq<Status>, want: Status, j: nat)
    requires |st| == NumNodes(ml)
    ensures SumFrom(ml, st, want, j) == 0 <==> forall i :: j <= i < |st| ==> st[i] != want
    decreases |st| - j
  {
    if j < |st| {
      SumZero(ml, st, want, j + 1);
      NodesInRange(ml, j);
      if forall i :: j + 1 <= i < |st| ==> st[i] != want {
        if st[j] != want {
          forall i | j <= i < |st| ensures st[i] != want {
            if i > j {
              assert j + 1 <= i;
            }
          }
        }
      }
    }
  }

  lemma {:induction false} TotalZero(ml: nat, st: seq<Status>, want: Status)
    requires |st| == NumNodes(ml)
    ensures Total(ml, st, want) == 0 <==> forall i :: 0 <= i < |st| ==> st[i] != want
  {
    SumZero(ml, st, want, 0);
  }

  /** The state of a fresh allocator: the whole arena is one free block. */
  ghost function Initial(ml: nat): (st: seq<Status>)
    ensures |st| == NumNodes(ml)
  {
    seq(NumNodes(ml), i => if i == 0 then Free else Absent)
  }

  lemma {:induction false} InitialSound(ml: nat)
    ensures Sound(ml, Initial(ml), -1)
    ensures Total(ml, Initial(ml), Free) == Pow2(ml)
    ensures Total(ml, Initial(ml), Allocated) == 0
  {
    var st := Initial(ml);
    assert forall i :: 1 <= i < |st| ==> st[i] == Absent;
    SumZero(ml, st, Free, 1);
    SumZero(ml, st, Allocated, 0);
    assert Total(ml, st, Free) == Weight(ml, 0) + SumFrom(ml, st, Free, 1);
  }

  /* ---------------------------------------------------------------- */
  /* Splitting and taking a free block (balloc)                        */
  /* ---------------------------------------------------------------- */

  /** `split` of a free node: it becomes split and both halves become free. */
  ghost function SplitAt(st: seq<Status>, c: nat): seq<Status>
    requires LeftChild(c) + 1 < |st|
  {
    st[c := Split][LeftChild(c) := Free][LeftChild(c) + 1 := Free]
  }

  /** A free node above the last level has two absent children in range. */
  lemma {:induction false} FreeChildren(ml: nat, st: seq<Status>, c: nat)
    requires TreeOk(ml, st) && c < |st| && st[c] != Split && LevelOf(c) < ml
    ensures LeftChild(c) + 1 < |st|
    ensures st[LeftChild(c)] == Absent && st[LeftChild(c) + 1] == Absent
  {
    ChildLevels(c);
    NodesInRange(ml, LeftChild(c) + 1);
  }

  lemma {:induction false} SplitTreeOk(ml: nat, st: seq<Status>, c: nat)
    requires TreeOk(ml, st) && c < |st| && st[c] == Free && LevelOf(c) < ml
    ensures LeftChild(c) + 1 < |st|
    ensures TreeOk(ml, SplitAt(st, c))
  {
    FreeChildren(ml, st, c);
    var st' := SplitAt(st, c);
    var l, r := LeftChild(c), LeftChild(c) + 1;
    forall i | 1 <= i < |st'| ensures st'[i] != Absent <==> st'[Parent(i)] == Split {
      if i == l || i == r {
      } else if i == c {
        assert st'[Parent(i)] == st[Parent(i)];
      } else if Parent(i) == l || Parent(i) == r {
        assert st[Parent(i)] == Absent;
      } else {
        assert st'[Parent(i)] == st[Parent(i)];
      }
    }
  }

  lemma {:induction false} SplitCoalesced(ml: nat, st: seq<Status>, c: nat, hole: int)
    requires TreeOk(ml, st) && CoalescedBut(st, hole)
    requires hole == -1 || (c >= 1 && hole == Parent(c))
    requires c < |st| && st[c] == Free && LevelOf(c) < ml
    ensures LeftChild(c) + 1 < |st|
    ensures CoalescedBut(SplitAt(st, c), c)
  {
    FreeChildren(ml, st, c);
    var st' := SplitAt(st, c);
    forall i | 0 <= i < |st'| && i != c && st'[i] == Split && LeftChild(i) + 1 < |st'|
      ensures st'[LeftChild(i)] != Free || st'[LeftChild(i) + 1] != Free
    {
      assert i != LeftChild(c) && i != LeftChild(c) + 1;
      if c >= 1 && i == Parent(c) {
        assert st'[c] == Split;
      } else {
        assert LeftChild(i) != c && LeftChild(i) + 1 != c;
        assert LeftChild(i) != LeftChild(c) && LeftChild(i) + 1 != LeftChild(c) + 1;
        assert LeftChild(i) != LeftChild(c) + 1 && LeftChild(i) + 1 != LeftChild(c);
      }
    }
  }

  /** Splitting keeps every total: the two halves weigh what the whole did. */
  lemma {:induction false} SplitTotals(ml: nat, st: seq<Status>, c: nat)
    requires LeftChild(c) + 1 < |st| && st[c] == Free && LevelOf(c) < ml
    requires st[LeftChild(c)] == Absent && st[LeftChild(c) + 1] == Absent
    ensures Total(ml, SplitAt(st, c), Free) == Total(ml, st, Free)
    ensures Total(ml, SplitAt(st, c), Allocated) == Total(ml, st, Allocated)
  {
    WeightOfChildren(ml, c);
    var l := LeftChild(c);
    var s1 := st[c := Split];
    var s2 := s1[l := Free];
    assert s1[l] == Absent && s2[l + 1] == Absent;
    assert SplitAt(st, c) == s2[l + 1 := Free];
    TotalUpdate(ml, st, Free, c, Split);
    TotalUpdate(ml, s1, Free, l, Free);
    TotalUpdate(ml, s2, Free, l + 1, Free);
    TotalUpdate(ml, st, Allocated, c, Split);
    TotalUpdate(ml, s1, Allocated, l, Free);
    TotalUpdate(ml, s2, Allocated, l + 1, Free);
  }

  lemma {:induction false} SplitSound(ml: nat, st: seq<Status>, c: nat, hole: int)
    requires Sound(ml, st, hole)
    requires hole == -1 || (c >= 1 && hole == Parent(c))
    requires c < |st| && st[c] == Free && LevelOf(c) < ml
    ensures LeftChild(c) + 1 < |st|
    ensures Sound(ml, SplitAt(st, c), c)
    ensures Total(ml, SplitAt(st, c), Allocated) == Total(ml, st, Allocated)
  {
    SplitTreeOk(ml, st, c);
    SplitCoalesced(ml, st, c, hole);
    FreeChildren(ml, st, c);
    SplitTotals(ml, st, c);
  }

  /** Taking a free node: it becomes allocated, one block's weight moves from free to allocated. */
  lemma {:induction false} TakeSound(ml: nat, st: seq<Status>, c: nat, hole: int)
    requires Sound(ml, st, hole)
    requires hole == -1 || (c >= 1 && hole == Parent(c))
    requires c < |st| && st[c] == Free
    ensures Sound(ml, st[c := Allocated], -1)
    ensures Total(ml, st[c := Allocated], Allocated) == Total(ml, st, Allocated) + Weight(ml, c)
  {
    var st' := st[c := Allocated];
    forall i | 1 <= i < |st'| ensures st'[i] != Absent <==> st'[Parent(i)] == Split {
      if i != c {
        assert st'[i] == st[i];
      }
    }
    forall i | 0 <= i < |st'| && st'[i] == Split && LeftChild(i) + 1 < |st'|
      ensures st'[LeftChild(i)] != Free || st'[LeftChild(i) + 1] != Free
    {
      if c >= 1 && i == Parent(c) {
      } else {
        assert LeftChild(i) != c && LeftChild(i) + 1 != c;
      }
    }
    TotalUpdate(ml, st, Free, c, Allocated);
    TotalUpdate(ml, st, Allocated, c, Allocated);
  }

  /** No node at level `lvl` or nearer the root is free: `balloc` finds nothing for level `lvl`. */
  ghost predicate NoFreeUpTo(st: seq<Status>, lvl: nat)
  {
    forall x :: 0 <= x < |st| && LevelOf(x) <= lvl ==> st[x] != Free
  }

  /**
   * `f` is the smallest free block that can serve a request at level
   * `lvl`: free, on level `lvl` or nearer the root, and no level between
   * its own and `lvl` has a free node.
   */
  ghost predicate BestFit(st: seq<Status>, f: nat, lvl: nat)
  {
    f < |st| && st[f] == Free && LevelOf(f) <= lvl &&
    forall x :: 0 <= x < |st| && LevelOf(f) < LevelOf(x) <= lvl ==> st[x] != Free
  }

  /**
   * The block `balloc` returns when it takes free node `f` for a request at
   * level `lvl`: `f` itself, or the right half of the right half ... of `f`
   * on level `lvl` (the right half is pushed last, so it heads its list).
   */
  function Descend(f: nat, lvl: nat): (r: nat)
    requires LevelOf(f) <= lvl
    ensures LevelOf(r) == lvl
    decreases lvl - LevelOf(f)
  {
    if LevelOf(f) == lvl then f
    else
      ChildLevels(f);
      Descend(LeftChild(f) + 1, lvl)
  }

  /** The block `Descend` picks lies below `f`. */
  lemma {:induction false} DescendBelow(f: nat, lvl: nat)
    requires LevelOf(f) <= lvl
    ensures AncestorAt(Descend(f, lvl), LevelOf(f)) == f
    decreases lvl - LevelOf(f)
  {
    if LevelOf(f) < lvl {
      ChildLevels(f);
      var r := Descend(LeftChild(f) + 1, lvl);
      DescendBelow(LeftChild(f) + 1, lvl);
      ParentOfAncestor(r, LevelOf(f));
    }
  }

  /**
   * The abstract effect of `balloc` once it has found free node `f`: split
   * `f` and then each right half down to level `lvl`, and allocate the last
   * right half.
   */
  ghost function AllocStatus(ml: nat, st: seq<Status>, f: nat, lvl: nat): (st': seq<Status>)
    requires |st| == NumNodes(ml) && LevelOf(f) <= lvl <= ml
    ensures |st'| == |st|
    decreases lvl - LevelOf(f)
  {
    NodesInRange(ml, f);
    if LevelOf(f) == lvl then st[f := Allocated]
    else
      ChildLevels(f);
      NodesInRange(ml, LeftChild(f) + 1);
      AllocStatus(ml, SplitAt(st, f), LeftChild(f) + 1, lvl)
  }

  /** One level of `AllocStatus` and `Descend`: split `f`, go on from its right half. */
  lemma {:induction false} AllocUnfold(ml: nat, st: seq<Status>, f: nat, lvl: nat)
    requires |st| == NumNodes(ml) && LevelOf(f) < lvl <= ml
    ensures LeftChild(f) + 1 < |st| && LevelOf(LeftChild(f) + 1) == LevelOf(f) + 1
    ensures AllocStatus(ml, st, f, lvl) == AllocStatus(ml, SplitAt(st, f), LeftChild(f) + 1, lvl)
    ensures Descend(f, lvl) == Descend(LeftChild(f) + 1, lvl)
  {
    ChildLevels(f);
    NodesInRange(ml, LeftChild(f) + 1);
  }

  /** Node `i` lies in the subtree rooted at `a`. */
  ghost predicate InSubtree(i: nat, a: nat)
  {
    LevelOf(a) <= LevelOf(i) && AncestorAt(i, LevelOf(a)) == a
  }

  /** A node outside the subtree of `f` is outside its right half's subtree and untouched by splitting `f`. */
  lemma {:induction false} SplitFrame(st: seq<Status>, f: nat, i: nat)
    requires LeftChild(f) + 1 < |st| && i < |st| && !InSubtree(i, f)
    ensures !InSubtree(i, LeftChild(f) + 1)
    ensures SplitAt(st, f)[i] == st[i]
  {
    ChildLevels(f);
    if LevelOf(f) < LevelOf(i) {
      ParentOfAncestor(i, LevelOf(f));
    }
  }

  /** Splitting a free node with absent halves allocates nothing and frees nothing allocated. */
  lemma {:induction false} SplitAllocated(st: seq<Status>, f: nat)
    requires LeftChild(f) + 1 < |st| && st[f] == Free
    requires st[LeftChild(f)] == Absent && st[LeftChild(f) + 1] == Absent
    ensures forall i :: 0 <= i < |st| ==> (SplitAt(st, f)[i] == Allocated <==> st[i] == Allocated)
  {
  }

  /**
   * `balloc` after finding free node `f`: the state stays sound, exactly one
   * block becomes allocated (the one `Descend` names, on level `lvl`), the
   * allocated pages grow by that block's size, every coarser block on its
   * path is split, and nothing outside the subtree of `f` changes.
   */
  lemma {:induction false} AllocStatusCorrect(ml: nat, st: seq<Status>, f: nat, lvl: nat, hole: int)
    requires Sound(ml, st, hole)
    requires hole == -1 || (f >= 1 && hole == Parent(f))
    requires f < |st| && st[f] == Free && LevelOf(f) <= lvl <= ml
    ensures Sound(ml, AllocStatus(ml, st, f, lvl), -1)
    ensures Descend(f, lvl) < |st| && AllocStatus(ml, st, f, lvl)[Descend(f, lvl)] == Allocated
    ensures forall i :: 0 <= i < |st| ==>
              (AllocStatus(ml, st, f, lvl)[i] == Allocated <==> st[i] == Allocated || i == Descend(f, lvl))
    ensures st[Descend(f, lvl)] != Allocated
    ensures Total(ml, AllocStatus(ml, st, f, lvl), Allocated)
         == Total(ml, st, Allocated) + Pow2(ml - lvl)
    ensures forall l :: LevelOf(f) <= l < lvl ==>
              AllocStatus(ml, st, f, lvl)[AncestorAt(Descend(f, lvl), l)] == Split
    ensures forall i :: 0 <= i < |st| && !InSubtree(i, f) ==> AllocStatus(ml, st, f, lvl)[i] == st[i]
  {
    AllocSound(ml, st, f, lvl, hole);
    AllocPath(ml, st, f, lvl);
    AllocFrame(ml, st, f, lvl);
  }

  /**
   * `AllocStatusCorrect` for a request of order `order`, with the new tree
   * `st'` and the block `b` handed out named: `b` is on level
   * `ml - order`, it is the one node that becomes allocated, and it adds
   * `2^order` pages.
   */
  lemma {:induction false} AllocOutcome(ml: nat, st: seq<Status>, st': seq<Status>, f: nat, order: nat, b: nat)
    requires Sound(ml, st, -1) && order <= ml
    requires f < |st| && st[f] == Free && LevelOf(f) <= ml - order
    requires st' == AllocStatus(ml, st, f, ml - order) && b == Descend(f, ml - order)
    ensures LevelOf(b) == ml - order && b < |st'|
    ensures st[b] != Allocated && st'[b] == Allocated
    ensures forall i :: 0 <= i < |st'| ==> (st'[i] == Allocated <==> st[i] == Allocated || i == b)
    ensures Total(ml, st', Allocated) == Total(ml, st, Allocated) + Pow2(order)
  {
    AllocSound(ml, st, f, ml - order, -1);
  }

  lemma {:induction false} AllocSound(ml: nat, st: seq<Status>, f: nat, lvl: nat, hole: int)
    requires Sound(ml, st, hole)
    requires hole == -1 || (f >= 1 && hole == Parent(f))
    requires f < |st| && st[f] == Free && LevelOf(f) <= lvl <= ml
    ensures Sound(ml, AllocStatus(ml, st, f, lvl), -1)
    ensures Descend(f, lvl) < |st| && AllocStatus(ml, st, f, lvl)[Descend(f, lvl)] == Allocated
    ensures forall i :: 0 <= i < |st| ==>
              (AllocStatus(ml, st, f, lvl)[i] == Allocated <==> st[i] == Allocated || i == Descend(f, lvl))
    ensures st[Descend(f, lvl)] != Allocated
    ensures Total(ml, AllocStatus(ml, st, f, lvl), Allocated)
         == Total(ml, st, Allocated) + Pow2(ml - lvl)
  {
    AllocTiles(ml, st, f, lvl, hole);
    AllocMarks(ml, st, f, lvl);
  }

  /** Allocating below free node `f` keeps the tree sound and adds a level-`lvl` block of pages. */
  lemma {:induction false} AllocTiles(ml: nat, st: seq<Status>, f: nat, lvl: nat, hole: int)
    requires Sound(ml, st, hole)
    requires hole == -1 || (f >= 1 && hole == Parent(f))
    requires f < |st| && st[f] == Free && LevelOf(f) <= lvl <= ml
    ensures Sound(ml, AllocStatus(ml, st, f, lvl), -1)
    ensures Total(ml, AllocStatus(ml, st, f, lvl), Allocated)
         == Total(ml, st, Allocated) + Pow2(ml - lvl)
    decreases lvl - LevelOf(f)
  {
    if LevelOf(f) == lvl {
      TakeSound(ml, st, f, hole);
    } else {
      var g := LeftChild(f) + 1;
      SplitSound(ml, st, f, hole);
      AllocUnfold(ml, st, f, lvl);
      AllocTiles(ml, SplitAt(st, f), g, lvl, f);
    }
  }

  /** Allocating below free node `f` allocates exactly the block `Descend` names. */
  lemma {:induction false} AllocMarks(ml: nat, st: seq<Status>, f: nat, lvl: nat)
    requires TreeOk(ml, st)
    requires f < |st| && st[f] == Free && LevelOf(f) <= lvl <= ml
    ensures Descend(f, lvl) < |st| && AllocStatus(ml, st, f, lvl)[Descend(f, lvl)] == Allocated
    ensures forall i :: 0 <= i < |st| ==>
              (AllocStatus(ml, st, f, lvl)[i] == Allocated <==> st[i] == Allocated || i == Descend(f, lvl))
    ensures st[Descend(f, lvl)] != Allocated
    decreases lvl - LevelOf(f)
  {
    if LevelOf(f) == lvl {
      AllocMarksHere(ml, st, f, lvl);
    } else {
      var g := LeftChild(f) + 1;
      SplitTreeOk(ml, st, f);
      AllocUnfold(ml, st, f, lvl);
      AllocMarks(ml, SplitAt(st, f), g, lvl);
      FreeChildren(ml, st, f);
      AllocMarksBelow(st, f, SplitAt(st, f), AllocStatus(ml, SplitAt(st, f), g, lvl), Descend(g, lvl));
    }
  }

  lemma {:induction false} AllocMarksHere(ml: nat, st: seq<Status>, f: nat, lvl: nat)
    requires |st| == NumNodes(ml) && f < |st| && st[f] == Free && LevelOf(f) == lvl <= ml
    ensures Descend(f, lvl) < |st| && AllocStatus(ml, st, f, lvl)[Descend(f, lvl)] == Allocated
    ensures forall i :: 0 <= i < |st| ==>
              (AllocStatus(ml, st, f, lvl)[i] == Allocated <==> st[i] == Allocated || i == Descend(f, lvl))
    ensures st[Descend(f, lvl)] != Allocated
  {
    assert Descend(f, lvl) == f;
    assert AllocStatus(ml, st, f, lvl) == st[f := Allocated];
  }

  /** Splitting `f` first changes which nodes are allocated in no way. */
  lemma {:induction false} AllocMarksBelow(st: seq<Status>, f: nat, s1: seq<Status>, a: seq<Status>, d: nat)
    requires LeftChild(f) + 1 < |st| && st[f] == Free
    requires st[LeftChild(f)] == Absent && st[LeftChild(f) + 1] == Absent
    requires s1 == SplitAt(st, f) && |a| == |st| && d < |st|
    requires forall i :: 0 <= i < |st| ==> (a[i] == Allocated <==> s1[i] == Allocated || i == d)
    requires s1[d] != Allocated
    ensures forall i :: 0 <= i < |st| ==> (a[i] == Allocated <==> st[i] == Allocated || i == d)
    ensures st[d] != Allocated
  {
    SplitAllocated(st, f);
  }

  lemma {:induction false} AllocFrame(ml: nat, st: seq<Status>, f: nat, lvl: nat)
    requires |st| == NumNodes(ml) && LevelOf(f) <= lvl <= ml
    ensures forall i :: 0 <= i < |st| && !InSubtree(i, f) ==> AllocStatus(ml, st, f, lvl)[i] == st[i]
    decreases lvl - LevelOf(f)
  {
    NodesInRange(ml, f);
    if LevelOf(f) < lvl {
      var g := LeftChild(f) + 1;
      AllocUnfold(ml, st, f, lvl);
      var s1 := SplitAt(st, f);
      AllocFrame(ml, s1, g, lvl);
      forall i | 0 <= i < |st| && !InSubtree(i, f) ensures AllocStatus(ml, st, f, lvl)[i] == st[i] {
        SplitFrame(st, f, i);
      }
    }
  }

  lemma {:induction false} AllocPath(ml: nat, st: seq<Status>, f: nat, lvl: nat)
    requires |st| == NumNodes(ml) && LevelOf(f) <= lvl <= ml
    ensures Descend(f, lvl) < |st|
    ensures forall l :: LevelOf(f) <= l < lvl ==>
              AllocStatus(ml, st, f, lvl)[AncestorAt(Descend(f, lvl), l)] == Split
    decreases lvl - LevelOf(f)
  {
    NodesInRange(ml, Descend(f, lvl));
    if LevelOf(f) < lvl {
      var g := LeftChild(f) + 1;
      AllocUnfold(ml, st, f, lvl);
      var s1 := SplitAt(st, f);
      var r := Descend(f, lvl);
      AllocPath(ml, s1, g, lvl);
      AllocFrame(ml, s1, g, lvl);
      DescendBelow(f, lvl);
      forall l | LevelOf(f) <= l < lvl ensures AllocStatus(ml, st, f, lvl)[AncestorAt(r, l)] == Split {
        if l == LevelOf(f) {
          assert AncestorAt(r, l) == f;
          assert !InSubtree(f, g) && s1[f] == Split;
        }
      }
    }
  }

  /* ---------------------------------------------------------------- */
  /* Releasing and merging (bfree)                                     */
  /* ---------------------------------------------------------------- */

  /**
   * One merge of `bfree`: released node `b` and its free buddy vanish and
   * their parent becomes a single block still to be released.
   */
  ghost function MergeAt(st: seq<Status>, b: nat): seq<Status>
    requires 1 <= b < |st| && SiblingIdx(b) < |st|
  {
    st[b := Absent][SiblingIdx(b) := Absent][Parent(b) := Allocated]
  }

  /**
   * The abstract effect of `bfree` on allocated node `b`: while its buddy is
   * free, merge the two into their parent; then mark the result free.
   */
  ghost function ReleaseStatus(ml: nat, st: seq<Status>, b: nat): seq<Status>
    requires |st| == NumNodes(ml) && b < |st|
    decreases b
  {
    if b == 0 then st[0 := Free]
    else
      SiblingInRange(ml, b);
      if st[SiblingIdx(b)].Busy() then st[b := Free]
      else ReleaseStatus(ml, MergeAt(st, b), Parent(b))
  }

  /**
   * The node `bfree` of `b` finally marks free: `b` itself when its buddy
   * is busy, otherwise the node the merged parent ends at.
   */
  ghost function ReleasedAt(ml: nat, st: seq<Status>, b: nat): nat
    requires |st| == NumNodes(ml) && b < |st|
    decreases b
  {
    if b == 0 then 0
    else
      SiblingInRange(ml, b);
      if st[SiblingIdx(b)].Busy() then b
      else ReleasedAt(ml, MergeAt(st, b), Parent(b))
  }

  /**
   * The node `bfree` ends at is an ancestor of `b` (or `b` itself) and is
   * free afterwards.
   */
  lemma {:induction false} ReleasedAtFree(ml: nat, st: seq<Status>, b: nat)
    requires |st| == NumNodes(ml) && b < |st|
    ensures ReleasedAt(ml, st, b) < |st| && LevelOf(ReleasedAt(ml, st, b)) <= LevelOf(b)
    ensures AncestorAt(b, LevelOf(ReleasedAt(ml, st, b))) == ReleasedAt(ml, st, b)
    ensures |ReleaseStatus(ml, st, b)| == |st|
    ensures ReleaseStatus(ml, st, b)[ReleasedAt(ml, st, b)] == Free
    decreases b
  {
    if b != 0 {
      SiblingInRange(ml, b);
      if !st[SiblingIdx(b)].Busy() {
        var p := Parent(b);
        ReleasedAtFree(ml, MergeAt(st, b), p);
        var r := ReleasedAt(ml, MergeAt(st, b), p);
        assert LevelOf(b) == LevelOf(p) + 1 by { ChildLevels(p); }
        assert AncestorAt(b, LevelOf(r)) == AncestorAt(p, LevelOf(r));
      }
    }
  }

  /** A live node's parent is split, so its buddy is live too. */
  lemma {:induction false} LiveSibling(ml: nat, st: seq<Status>, b: nat)
    requires TreeOk(ml, st) && 1 <= b < |st| && st[b] != Absent
    ensures SiblingIdx(b) < |st| && st[SiblingIdx(b)] != Absent
    ensures st[Parent(b)] == Split
    ensures Weight(ml, Parent(b)) == 2 * Weight(ml, b) && Weight(ml, SiblingIdx(b)) == Weight(ml, b)
  {
    SiblingInRange(ml, b);
    var p := Parent(b);
    SplitLevel(ml, st, p);
    WeightOfChildren(ml, p);
  }

  lemma {:induction false} MergeSound(ml: nat, st: seq<Status>, b: nat)
    requires Sound(ml, st, -1) && 1 <= b < |st| && st[b] == Allocated
    requires SiblingIdx(b) < |st| && !st[SiblingIdx(b)].Busy()
    ensures Sound(ml, MergeAt(st, b), -1)
    ensures MergeAt(st, b)[Parent(b)] == Allocated
    ensures forall i :: 0 <= i < |st| ==>
              (MergeAt(st, b)[i] == Allocated <==> (st[i] == Allocated && i != b) || i == Parent(b))
    ensures Total(ml, MergeAt(st, b), Allocated) == Total(ml, st, Allocated) + Weight(ml, b)
  {
    LiveSibling(ml, st, b);
    MergeShape(ml, st, b);
    MergeTotals(ml, st, b);
  }

  /** Merging keeps the tree shape and the coalescing of buddies. */
  lemma {:induction false} MergeShape(ml: nat, st: seq<Status>, b: nat)
    requires TreeOk(ml, st) && CoalescedBut(st, -1) && 1 <= b < |st| && st[b] == Allocated
    requires SiblingIdx(b) < |st| && st[SiblingIdx(b)] == Free && st[Parent(b)] == Split
    ensures TreeOk(ml, MergeAt(st, b)) && CoalescedBut(MergeAt(st, b), -1)
  {
    var s, p := SiblingIdx(b), Parent(b);
    var st' := MergeAt(st, b);
    // The children of b and of its buddy are absent (neither is split).
    forall i | 1 <= i < |st'| ensures st'[i] != Absent <==> st'[Parent(i)] == Split {
      if i == b || i == s {
      } else if i == p {
        assert st'[Parent(i)] == st[Parent(i)];
      } else if Parent(i) == b || Parent(i) == s {
        assert st[i] == Absent;
      } else {
        assert st'[Parent(i)] == st[Parent(i)];
      }
    }
    forall i | 0 <= i < |st'| && st'[i] == Split && LeftChild(i) + 1 < |st'|
      ensures st'[LeftChild(i)] != Free || st'[LeftChild(i) + 1] != Free
    {
      assert i != p && i != b && i != s;
      assert LeftChild(i) != b && LeftChild(i) != s && LeftChild(i) + 1 != b && LeftChild(i) + 1 != s;
    }
  }

  /** Merging turns the pages of `b` and of its free buddy into the allocated pages of their parent. */
  lemma {:induction false} MergeTotals(ml: nat, st: seq<Status>, b: nat)
    requires Tiled(ml, st) && 1 <= b < |st| && st[b] == Allocated
    requires SiblingIdx(b) < |st| && st[SiblingIdx(b)] == Free && st[Parent(b)] == Split
    requires Weight(ml, Parent(b)) == 2 * Weight(ml, b) && Weight(ml, SiblingIdx(b)) == Weight(ml, b)
    ensures Tiled(ml, MergeAt(st, b))
    ensures MergeAt(st, b)[Parent(b)] == Allocated
    ensures forall i :: 0 <= i < |st| ==>
              (MergeAt(st, b)[i] == Allocated <==> (st[i] == Allocated && i != b) || i == Parent(b))
    ensures Total(ml, MergeAt(st, b), Allocated) == Total(ml, st, Allocated) + Weight(ml, b)
  {
    var s, p := SiblingIdx(b), Parent(b);
    var s1 := st[b := Absent];
    var s2 := s1[s := Absent];
    assert MergeAt(st, b) == s2[p := Allocated];
    TotalUpdate(ml, st, Free, b, Absent);
    TotalUpdate(ml, s1, Free, s, Absent);
    TotalUpdate(ml, s2, Free, p, Allocated);
    TotalUpdate(ml, st, Allocated, b, Absent);
    TotalUpdate(ml, s1, Allocated, s, Absent);
    TotalUpdate(ml, s2, Allocated, p, Allocated);
  }

  /** The last step of `bfree`: the (possibly merged) block becomes free. */
  lemma {:induction false} ReleaseLastSound(ml: nat, st: seq<Status>, b: nat)
    requires Sound(ml, st, -1) && b < |st| && st[b] == Allocated
    requires b >= 1 ==> SiblingIdx(b) < |st| && st[SiblingIdx(b)].Busy()
    ensures Sound(ml, st[b := Free], -1)
    ensures Total(ml, st[b := Free], Allocated) + Weight(ml, b) == Total(ml, st, Allocated)
  {
    var st' := st[b := Free];
    forall i | 1 <= i < |st'| ensures st'[i] != Absent <==> st'[Parent(i)] == Split {
      if i != b {
        assert st'[i] == st[i];
      }
    }
    forall i | 0 <= i < |st'| && st'[i] == Split && LeftChild(i) + 1 < |st'|
      ensures st'[LeftChild(i)] != Free || st'[LeftChild(i) + 1] != Free
    {
      if b >= 1 && i == Parent(b) {
        if LeftChild(i) == b {
          assert SiblingIdx(b) == LeftChild(i) + 1;
        } else {
          assert SiblingIdx(b) == LeftChild(i);
        }
      } else {
        assert LeftChild(i) != b && LeftChild(i) + 1 != b;
      }
    }
    TotalUpdate(ml, st, Free, b, Free);
    TotalUpdate(ml, st, Allocated, b, Free);
  }

  /**
   * `bfree` of allocated node `b`: the state stays sound, exactly `b` stops
   * being allocated, and the allocated pages shrink by `b`'s size.
   */
  lemma {:induction false} ReleaseCorrect(ml: nat, st: seq<Status>, b: nat)
    requires Sound(ml, st, -1) && b < |st| && st[b] == Allocated
    ensures Sound(ml, ReleaseStatus(ml, st, b), -1)
    ensures forall i :: 0 <= i < |st| ==>
              (ReleaseStatus(ml, st, b)[i] == Allocated <==> st[i] == Allocated && i != b)
    ensures Total(ml, ReleaseStatus(ml, st, b), Allocated) + Weight(ml, b) == Total(ml, st, Allocated)
    decreases b
  {
    if b == 0 {
      ReleaseLastSound(ml, st, b);
    } else {
      LiveSibling(ml, st, b);
      if st[SiblingIdx(b)].Busy() {
        ReleaseLastSound(ml, st, b);
      } else {
        var p := Parent(b);
        MergeSound(ml, st, b);
        ReleaseCorrect(ml, MergeAt(st, b), p);
      }
    }
  }

  /**
   * Releasing a block right after allocating it restores the status of
   * every node. Stated for the state just before the allocation took `f`.
   */
  lemma {:induction false} RoundTrip(ml: nat, st: seq<Status>, f: nat, lvl: nat)
    requires Sound(ml, st, -1) && f < |st| && st[f] == Free && LevelOf(f) <= lvl <= ml
    ensures Descend(f, lvl) < |st|
    ensures ReleaseStatus(ml, AllocStatus(ml, st, f, lvl), Descend(f, lvl)) == st
  {
    AllocStatusCorrect(ml, st, f, lvl, -1);
    RoundTripFrom(ml, st, f, lvl);
    if f >= 1 {
      LiveSibling(ml, st, f);
      var s := SiblingIdx(f);
      var p := Parent(f);
      if LeftChild(p) == f {
        assert s == LeftChild(p) + 1;
      } else {
        assert s == LeftChild(p);
      }
      assert st[f := Allocated][s].Busy();
    }
    assert st[f := Allocated][f := Free] == st;
  }

  /**
   * Undoing the splits of an allocation below `f` leaves `f` itself
   * allocated: the release merges back up to `f`.
   */
  lemma {:induction false} RoundTripFrom(ml: nat, st: seq<Status>, f: nat, lvl: nat)
    requires TreeOk(ml, st) && f < |st| && st[f] == Free && LevelOf(f) <= lvl <= ml
    ensures Descend(f, lvl) < |st|
    ensures ReleaseStatus(ml, AllocStatus(ml, st, f, lvl), Descend(f, lvl))
         == ReleaseStatus(ml, st[f := Allocated], f)
    decreases lvl - LevelOf(f)
  {
    NodesInRange(ml, Descend(f, lvl));
    if LevelOf(f) < lvl {
      var g := LeftChild(f) + 1;
      FreeChildren(ml, st, f);
      SplitTreeOk(ml, st, f);
      var s1 := SplitAt(st, f);
      AllocUnfold(ml, st, f, lvl);
      RoundTripFrom(ml, s1, g, lvl);
      MergeUndoesSplit(ml, st, f);
    }
  }

  /** Releasing the right half of a fresh split merges it straight back into its parent. */
  lemma {:induction false} MergeUndoesSplit(ml: nat, st: seq<Status>, f: nat)
    requires |st| == NumNodes(ml) && LeftChild(f) + 1 < |st|
    requires st[LeftChild(f)] == Absent && st[LeftChild(f) + 1] == Absent
    ensures ReleaseStatus(ml, SplitAt(st, f)[LeftChild(f) + 1 := Allocated], LeftChild(f) + 1)
         == ReleaseStatus(ml, st[f := Allocated], f)
  {
    var g := LeftChild(f) + 1;
    var s2 := SplitAt(st, f)[g := Allocated];
    assert SiblingIdx(g) == LeftChild(f) && Parent(g) == f;
    assert s2[LeftChild(f)] == Free;
    assert MergeAt(s2, g) == st[f := Allocated];
  }

  /* ---------------------------------------------------------------- */
  /* Consequences                                                      */
  /* ---------------------------------------------------------------- */

  /** Coalescing means a split node always has an allocation below it. */
  lemma {:induction false} SplitHasAllocated(ml: nat, st: seq<Status>, i: nat)
    requires TreeOk(ml, st) && CoalescedBut(st, -1) && i < |st| && st[i] == Split
    ensures exists j :: 0 <= j < |st| && st[j] == Allocated
    decreases |st| - i
  {
    var l, r := LeftChild(i), LeftChild(i) + 1;
    if st[l] == Allocated || st[r] == Allocated {
    } else if st[l] == Split {
      SplitHasAllocated(ml, st, l);
    } else if st[r] == Split {
      SplitHasAllocated(ml, st, r);
    }
  }

  /** Once nothing is allocated, the buddies have merged back into one free arena. */
  lemma {:induction false} RootFreeWhenNothingAllocated(ml: nat, st: seq<Status>)
    requires Sound(ml, st, -1) && Total(ml, st, Allocated) == 0
    ensures st[0] == Free
    ensures forall i :: 1 <= i < |st| ==> st[i] == Absent
    ensures st == Initial(ml)
  {
    TotalZero(ml, st, Allocated);
    if st[0] == Split {
      SplitHasAllocated(ml, st, 0);
    }
    forall i | 1 <= i < |st| ensures st[i] == Absent {
      if st[i] != Absent {
        LiveAncestorsSplit(ml, st, i, 0);
      }
    }
  }

  /**
   * `balloc` of the smallest size finds nothing exactly when the whole
   * arena is allocated; and then every larger request fails too.
   */
  lemma {:induction false} ExhaustedIffFull(ml: nat, st: seq<Status>)
    requires Sound(ml, st, -1)
    ensures NoFreeUpTo(st, ml) <==> Total(ml, st, Allocated) == Pow2(ml)
    ensures Total(ml, st, Allocated) == Pow2(ml) ==> forall lvl :: NoFreeUpTo(st, lvl)
  {
    TotalZero(ml, st, Free);
    forall x | 0 <= x < |st|
      ensures LevelOf(x) <= ml
    {
      NodesInRange(ml, x);
    }
  }

  /** The root is the only node on level 0. */
  lemma {:induction false} RootAlone(x: nat)
    requires LevelOf(x) == 0
    ensures x == 0
  {
    LevelBounds(x);
    assert Pow2(1) == 2;
  }

  /**
   * In a fresh allocator a request for the whole arena finds the root,
   * hands out the root itself, and after that a second such request finds
   * nothing.
   */
  lemma {:induction false} WholeArenaOnce(ml: nat, f: nat)
    requires BestFit(Initial(ml), f, 0)
    ensures f == 0 && Descend(f, 0) == 0
    ensures NoFreeUpTo(AllocStatus(ml, Initial(ml), f, 0), 0)
  {
    RootAlone(f);
    var st' := AllocStatus(ml, Initial(ml), 0, 0);
    forall x | 0 <= x < |st'| && LevelOf(x) <= 0
      ensures st'[x] != Free
    {
      RootAlone(x);
    }
  }

  /** Every proper ancestor of a live node is split. */
  lemma {:induction false} LiveAncestorsSplit(ml: nat, st: seq<Status>, x: nat, l: nat)
    requires TreeOk(ml, st) && x < |st| && st[x] != Absent
    ensures l < LevelOf(x) ==> st[AncestorAt(x, l)] == Split
    decreases x
  {
    if l < LevelOf(x) {
      var p := Parent(x);
      if l < LevelOf(p) {
        LiveAncestorsSplit(ml, st, p, l);
      }
    }
  }

  /**
   * Distinct live blocks that are not split (free or allocated) never
   * overlap: in particular no two allocations share a byte.
   */
  lemma {:induction false} NoOverlap(ml: nat, pageSize: nat, st: seq<Status>, i: nat, j: nat)
    requires TreeOk(ml, st) && i < |st| && j < |st| && i != j
    requires st[i] in {Free, Allocated} && st[j] in {Free, Allocated}
    ensures LevelOf(i) <= ml && LevelOf(j) <= ml
    ensures AddrOf(ml, pageSize, i) + BlockSizeAtLevel(ml, pageSize, LevelOf(i)) <= AddrOf(ml, pageSize, j) ||
            AddrOf(ml, pageSize, j) + BlockSizeAtLevel(ml, pageSize, LevelOf(j)) <= AddrOf(ml, pageSize, i)
  {
    NodesInRange(ml, i);
    NodesInRange(ml, j);
    if LevelOf(i) <= LevelOf(j) {
      DisjointFrom(ml, pageSize, st, i, j);
    } else {
      DisjointFrom(ml, pageSize, st, j, i);
    }
  }

  lemma {:induction false} DisjointFrom(ml: nat, pageSize: nat, st: seq<Status>, i: nat, j: nat)
    requires TreeOk(ml, st) && i < |st| && j < |st| && i != j
    requires st[i] in {Free, Allocated} && st[j] in {Free, Allocated}
    requires LevelOf(i) <= LevelOf(j) <= ml
    ensures AddrOf(ml, pageSize, i) + BlockSizeAtLevel(ml, pageSize, LevelOf(i)) <= AddrOf(ml, pageSize, j) ||
            AddrOf(ml, pageSize, j) + BlockSizeAtLevel(ml, pageSize, LevelOf(j)) <= AddrOf(ml, pageSize, i)
  {
    var a := AncestorAt(j, LevelOf(i));
    LiveAncestorsSplit(ml, st, j, LevelOf(i));
    assert a != i;
    NestedRange(ml, pageSize, j, LevelOf(i));
    if a < i {
      SameLevelDisjoint(ml, pageSize, a, i);
    } else {
      SameLevelDisjoint(ml, pageSize, i, a);
    }
  }
}
