/**
 * The opening of the repository's test driver, as a client of the model:
 * with a fresh allocator, `2^max_level` requests for one page all succeed
 * at distinct pages, after which every request fails; once all pages are
 * given back, a request for the whole arena yields the root block (address
 * 0, level 0), and a second such request fails.
 */
module Scenario {
  import opened Wrappers
  import opened Geometry
  import opened TreeIndex
  import opened StatusTree
  import opened AllocatorState
  import opened Buddy

  /** The nodes that are allocated in `st` are exactly those listed in `s`. */
  ghost predicate AllocatedAre(st: seq<Status>, s: seq<nat>)
  {
    forall x :: 0 <= x < |st| ==> (st[x] == Allocated <==> x in s)
  }

  /** No node occurs twice in `s`. */
  ghost predicate Unique(s: seq<nat>)
  {
    forall j, k :: 0 <= j < k < |s| ==> s[j] != s[k]
  }

  /**
   * One request for a page (order 0) while the arena is not full, with
   * the outcome `balloc` promises: it succeeds, the page handed out is a
   * leaf no earlier request got, and the allocated pages grow by one.
   */
  lemma {:induction false} FillStep(ml: nat, order: nat, st: seq<Status>, st': seq<Status>, blocks: seq<nat>,
                                    r: Option<nat>, f: nat)
    requires Sound(ml, st, -1) && AllocatedAre(st, blocks) && Unique(blocks)
    requires Total(ml, st, Allocated) < Pow2(ml) && order == 0
    requires r.None? <==> order > ml || NoFreeUpTo(st, ml - order)
    requires r.Some? ==> order <= ml && BestFit(st, f, ml - order) && r.value == Descend(f, ml - order) &&
                         st' == AllocStatus(ml, st, f, ml - order)
    ensures r.Some? && LevelOf(r.value) == ml
    ensures AllocatedAre(st', blocks + [r.value]) && Unique(blocks + [r.value])
    ensures Total(ml, st', Allocated) == Total(ml, st, Allocated) + 1
  {
    ExhaustedIffFull(ml, st);
    var b := r.value;
    AllocOutcome(ml, st, st', f, 0, b);
    assert b !in blocks;
    forall x | 0 <= x < |st'|
      ensures st'[x] == Allocated <==> x in blocks + [b]
    {
      assert x in blocks + [b] <==> x in blocks || x == b;
    }
  }

  /**
   * Requests for one page (order 0) until the arena is full: each one
   * succeeds and hands out a leaf no earlier request got.
   */
  method FillArena(a: Allocator) returns (blocks: seq<nat>)
    requires a.Valid() && a.status == Initial(a.maxLevel)
    modifies a, a.used, a.nodes, a.heads
    ensures a.Valid() && |blocks| == Pow2(a.maxLevel) && Unique(blocks)
    ensures AllocatedAre(a.status, blocks)
    ensures Total(a.maxLevel, a.status, Allocated) == Pow2(a.maxLevel)
    ensures forall j :: 0 <= j < |blocks| ==> LevelOf(blocks[j]) == a.maxLevel
  {
    var ml := a.maxLevel;
    InitialSound(ml);
    blocks := [];
    var i: nat := 0;
    while i < Pow2(ml)
      invariant a.Valid() && a.maxLevel == ml && i == |blocks| <= Pow2(ml) && Unique(blocks)
      invariant AllocatedAre(a.status, blocks)
      invariant Total(ml, a.status, Allocated) == i
      invariant forall j :: 0 <= j < |blocks| ==> LevelOf(blocks[j]) == ml
    {
      var b := RequestPage(a, blocks);
      blocks := blocks + [b];
      i := i + 1;
    }
  }

  /**
   * One request for a page (order 0) while fewer than `2^max_level` pages
   * are allocated: it succeeds with a leaf no earlier request got.
   */
  method RequestPage(a: Allocator, ghost blocks: seq<nat>) returns (b: nat)
    requires a.Valid() && AllocatedAre(a.status, blocks) && Unique(blocks)
    requires Total(a.maxLevel, a.status, Allocated) < Pow2(a.maxLevel)
    modifies a, a.used, a.nodes, a.heads
    ensures a.Valid()
    ensures LevelOf(b) == a.maxLevel && AllocatedAre(a.status, blocks + [b]) && Unique(blocks + [b])
    ensures Total(a.maxLevel, a.status, Allocated) == old(Total(a.maxLevel, a.status, Allocated)) + 1
  {
    ghost var st := a.status;
    var r, f := a.Balloc(0);
    FillStep(a.maxLevel, 0, st, a.status, blocks, r, f);
    b := r.value;
  }

  /** With the arena full, a request of every order from 0 to `max_level` fails. */
  method Exhausted(a: Allocator) returns (results: seq<Option<nat>>)
    requires a.Valid() && Total(a.maxLevel, a.status, Allocated) == Pow2(a.maxLevel)
    modifies a, a.used, a.nodes, a.heads
    ensures a.Valid() && a.status == old(a.status)
    ensures |results| == a.maxLevel + 1 && forall j :: 0 <= j < |results| ==> results[j] == None
  {
    ExhaustedIffFull(a.maxLevel, a.status);
    results := [];
    var order: nat := 0;
    while order <= a.maxLevel
      invariant a.Valid() && a.status == old(a.status) && order <= a.maxLevel + 1
      invariant |results| == order && forall j :: 0 <= j < |results| ==> results[j] == None
    {
      var r, f := a.Balloc(order);
      results := results + [r];
      order := order + 1;
    }
  }

  /** Giving back `blocks[i]` leaves the blocks after it as the allocated ones. */
  lemma {:induction false} ReleaseStep(st: seq<Status>, st': seq<Status>, blocks: seq<nat>, i: nat)
    requires i < |blocks| && Unique(blocks) && AllocatedAre(st, blocks[i..]) && |st'| == |st|
    requires forall x :: 0 <= x < |st| ==> (st'[x] == Allocated <==> st[x] == Allocated && x != blocks[i])
    ensures AllocatedAre(st', blocks[i + 1..])
  {
    assert blocks[i..] == [blocks[i]] + blocks[i + 1..];
    assert blocks[i] !in blocks[i + 1..];
  }

  /** Giving back every block in turn frees the whole arena again. */
  method ReleaseAll(a: Allocator, blocks: seq<nat>)
    requires a.Valid() && Unique(blocks) && AllocatedAre(a.status, blocks)
    requires forall j :: 0 <= j < |blocks| ==> LevelOf(blocks[j]) <= a.maxLevel
    modifies a, a.used, a.nodes, a.heads
    ensures a.Valid() && a.status == Initial(a.maxLevel)
  {
    var i: nat := 0;
    while i < |blocks|
      invariant a.Valid() && i <= |blocks| && |a.status| == NumNodes(a.maxLevel)
      invariant AllocatedAre(a.status, blocks[i..])
    {
      ghost var st := a.status;
      NodesInRange(a.maxLevel, blocks[i]);
      assert blocks[i] in blocks[i..];
      a.Bfree(blocks[i]);
      ReleaseStep(st, a.status, blocks, i);
      i := i + 1;
    }
    TotalZero(a.maxLevel, a.status, Allocated);
    RootFreeWhenNothingAllocated(a.maxLevel, a.status);
  }

  /**
   * The blocks of `blocks`, all allocated in `st`, start at pairwise
   * distinct addresses.
   */
  lemma {:induction false} DistinctAddresses(ml: nat, ps: nat, st: seq<Status>, blocks: seq<nat>)
    requires TreeOk(ml, st) && AllocatedAre(st, blocks) && Unique(blocks) && ps >= 1
    requires forall j :: 0 <= j < |blocks| ==> LevelOf(blocks[j]) == ml
    ensures forall j, k :: 0 <= j < k < |blocks| ==> AddrOf(ml, ps, blocks[j]) != AddrOf(ml, ps, blocks[k])
  {
    forall j, k | 0 <= j < k < |blocks|
      ensures AddrOf(ml, ps, blocks[j]) != AddrOf(ml, ps, blocks[k])
    {
      NodesInRange(ml, blocks[j]);
      NodesInRange(ml, blocks[k]);
      assert blocks[j] in blocks && blocks[k] in blocks;
      NoOverlap(ml, ps, st, blocks[j], blocks[k]);
    }
  }

  /**
   * A request for the whole arena in a fresh allocator: the root block,
   * at address 0 on level 0; a second such request fails; giving the root
   * back leaves a fresh allocator.
   */
  method TakeWhole(a: Allocator) returns (whole: Option<nat>, wholeRec: Block, again: Option<nat>)
    requires a.Valid() && a.status == Initial(a.maxLevel)
    modifies a, a.used, a.nodes, a.heads
    ensures a.Valid() && a.status == Initial(a.maxLevel)
    ensures whole == Some(0) && wholeRec == Block(0, 0, None, None)
    ensures again == None
  {
    ghost var st := a.status;
    ghost var f;
    whole, f := a.Balloc(a.maxLevel);
    WholeArenaOnce(a.maxLevel, f);
    wholeRec := a.nodes[whole.value];
    again, f := a.Balloc(a.maxLevel);
    a.Bfree(0);
    assert a.status == st;
  }

  /**
   * The whole sequence: fill the arena page by page, see every order fail,
   * give everything back, take the whole arena at once, see a second such
   * request fail, and give the arena back.
   */
  method WholeArena(maxLevel: nat, pageSizeOrder: nat)
      returns (blocks: seq<nat>, refused: seq<Option<nat>>, whole: Option<nat>, wholeRec: Block,
               again: Option<nat>)
    requires maxLevel + pageSizeOrder <= 31
    ensures |blocks| == Pow2(maxLevel) && Unique(blocks)
    ensures forall j :: 0 <= j < |blocks| ==> LevelOf(blocks[j]) == maxLevel
    ensures forall j, k :: 0 <= j < k < |blocks| ==>
              AddrOf(maxLevel, Pow2(pageSizeOrder), blocks[j]) != AddrOf(maxLevel, Pow2(pageSizeOrder), blocks[k])
    ensures |refused| == maxLevel + 1 && forall j :: 0 <= j < |refused| ==> refused[j] == None
    ensures whole == Some(0) && wholeRec == Block(0, 0, None, None)
    ensures again == None
  {
    var a := new Allocator(maxLevel, pageSizeOrder);
    blocks := FillArena(a);
    DistinctAddresses(maxLevel, a.pageSize, a.status, blocks);
    refused := Exhausted(a);
    ReleaseAll(a, blocks);
    whole, wholeRec, again := TakeWhole(a);
  }
}
