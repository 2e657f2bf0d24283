/**
 * The intrusive doubly linked free lists of buddy.c. A list is a head
 * (`NULL` when empty) and the `prev`/`next` links of the block records it
 * threads through; the registry is an array of records and a link is the
 * index of another record.
 */
module FreeList {
  import opened Wrappers
  import opened Geometry

  /**
   * The records `s[0], s[1], ...` form the list that starts at `head`:
   * distinct, each linked back to its predecessor and on to its successor.
   */
  ghost predicate Linked(recs: seq<Block>, head: Option<nat>, s: seq<nat>)
  {
    (forall k :: 0 <= k < |s| ==> s[k] < |recs|) &&
    Distinct(s) &&
    head == (if s == [] then None else Some(s[0])) &&
    (forall k {:trigger recs[s[k]]} :: 0 <= k < |s| ==> recs[s[k]].prev == PrevOf(s, k)) &&
    (forall k {:trigger recs[s[k]]} :: 0 <= k < |s| ==> recs[s[k]].next == NextOf(s, k))
  }

  /**
   * No index occurs twice. The quantifier only fires on an explicit
   * `Apart` term, so a proof names the two positions it compares.
   */
  ghost predicate Distinct(s: seq<nat>)
  {
    forall j, k {:trigger Apart(s, j, k)} :: 0 <= j < k < |s| ==> Apart(s, j, k)
  }

  /** Positions `j` and `k` of `s` hold different indices. */
  ghost predicate Apart(s: seq<nat>, j: nat, k: nat)
    requires j < |s| && k < |s|
  {
    s[j] != s[k]
  }

  /** Two different positions of a list without repeats hold different indices. */
  lemma {:induction false} DistinctAt(s: seq<nat>, j: nat, k: nat)
    requires Distinct(s) && j < |s| && k < |s| && j != k
    ensures s[j] != s[k]
  {
    if j < k {
      assert Apart(s, j, k);
    } else {
      assert Apart(s, k, j);
    }
  }

  lemma {:induction false} DistinctRemove(s: seq<nat>, k: nat)
    requires Distinct(s) && k < |s|
    ensures Distinct(s[..k] + s[k + 1..])
  {
    var t := s[..k] + s[k + 1..];
    forall i, j | 0 <= i < j < |t| ensures Apart(t, i, j) {
      var i' := if i < k then i else i + 1;
      var j' := if j < k then j else j + 1;
      assert t[i] == s[i'] && t[j] == s[j'];
      assert Apart(s, i', j');
    }
  }

  /** The link a list member's `prev` must hold. */
  function PrevOf(s: seq<nat>, k: nat): Option<nat>
    requires k < |s|
  {
    if k == 0 then None else Some(s[k - 1])
  }

  /** The link a list member's `next` must hold. */
  function NextOf(s: seq<nat>, k: nat): Option<nat>
    requires k < |s|
  {
    if k == |s| - 1 then None else Some(s[k + 1])
  }

  /** A list only depends on the records it threads through. */
  lemma {:induction false} LinkedFrame(recs: seq<Block>, recs': seq<Block>, head: Option<nat>, s: seq<nat>)
    requires Linked(recs, head, s) && |recs'| == |recs|
    requires forall x :: x in s ==> recs'[x] == recs[x]
    ensures Linked(recs', head, s)
  {
    forall k | 0 <= k < |s| ensures recs'[s[k]] == recs[s[k]] {
      assert s[k] in s;
    }
  }

  /** The records after `insert` pushed record `b` onto the list that starts at `blockList`. */
  ghost function InsertRecs(recs: seq<Block>, blockList: Option<nat>, b: nat): (r: seq<Block>)
    requires b < |recs| && (blockList.Some? ==> blockList.value < |recs|)
    ensures |r| == |recs|
  {
    var pushed := recs[b := recs[b].(prev := None, next := blockList)];
    if blockList.Some? then pushed[blockList.value := pushed[blockList.value].(prev := Some(b))]
    else pushed
  }

  /**
   * Pushing a record that is not on the list yields the list with that
   * record in front; only the record and the old head change.
   */
  lemma {:induction false} InsertCorrect(recs: seq<Block>, blockList: Option<nat>, b: nat, s: seq<nat>)
    requires Linked(recs, blockList, s) && b < |recs| && b !in s
    ensures blockList.Some? ==> blockList.value < |recs|
    ensures Linked(InsertRecs(recs, blockList, b), Some(b), [b] + s)
    ensures forall i :: 0 <= i < |recs| && i != b && i !in s ==> InsertRecs(recs, blockList, b)[i] == recs[i]
  {
    if blockList.Some? {
      assert s[0] in s;
    }
    var r := InsertRecs(recs, blockList, b);
    var t := [b] + s;
    forall k | 0 <= k < |t|
      ensures r[t[k]].prev == PrevOf(t, k)
      ensures r[t[k]].next == NextOf(t, k)
    {
      if k > 0 {
        assert t[k] == s[k - 1];
        assert s[k - 1] in s;
        if k > 1 {
          assert t[k - 1] == s[k - 2];
        }
        if k < |s| {
          assert t[k + 1] == s[k];
        }
        assert recs[s[k - 1]].prev == PrevOf(s, k - 1);
        assert recs[s[k - 1]].next == NextOf(s, k - 1);
      }
    }
    forall j, k | 0 <= j < k < |t| ensures Apart(t, j, k) {
      if j == 0 {
        assert t[k] == s[k - 1] && s[k - 1] in s;
      } else {
        assert t[j] == s[j - 1] && t[k] == s[k - 1];
        assert Apart(s, j - 1, k - 1);
      }
    }
  }

  /** `insert` only rewrites links: every record keeps its level and address. */
  lemma {:induction false} InsertGeometry(recs: seq<Block>, blockList: Option<nat>, b: nat)
    requires b < |recs| && (blockList.Some? ==> blockList.value < |recs|)
    ensures forall i :: 0 <= i < |recs| ==>
              InsertRecs(recs, blockList, b)[i].level == recs[i].level &&
              InsertRecs(recs, blockList, b)[i].address == recs[i].address
  {
  }

  /**
   * `insert`: push record `b` at the front of the list that starts at
   * `blockList`; the old head's `prev` now points back to `b`.
   */
  method Insert(nodes: array<Block>, blockList: Option<nat>, b: nat) returns (head: Option<nat>)
    requires b < nodes.Length && (blockList.Some? ==> blockList.value < nodes.Length)
    modifies nodes
    ensures head == Some(b)
    ensures nodes[..] == InsertRecs(old(nodes[..]), blockList, b)
  {
    nodes[b] := nodes[b].(prev := None, next := blockList);
    if blockList.Some? {
      nodes[blockList.value] := nodes[blockList.value].(prev := Some(b));
    }
    head := Some(b);
  }

  /**
   * The records left after unlinking position `k` of `s` (its predecessor
   * pointing on to its successor and back) still form a list, headed by the
   * successor when position `k` was the head.
   */
  lemma {:induction false} UnlinkedRest(recs: seq<Block>, recs': seq<Block>, head: Option<nat>, s: seq<nat>, k: nat)
    requires Linked(recs, head, s) && k < |s| && |recs'| == |recs|
    requires k + 1 < |s| ==> recs'[s[k + 1]].prev == PrevOf(s, k) && recs'[s[k + 1]].next == recs[s[k + 1]].next
    requires k > 0 ==> recs'[s[k - 1]].next == NextOf(s, k) && recs'[s[k - 1]].prev == recs[s[k - 1]].prev
    requires forall j :: 0 <= j < |s| && j != k - 1 && j != k && j != k + 1 ==> recs'[s[j]] == recs[s[j]]
    ensures Linked(recs', if k == 0 then NextOf(s, k) else head, s[..k] + s[k + 1..])
  {
    var t := s[..k] + s[k + 1..];
    assert |t| == |s| - 1;
    DistinctRemove(s, k);
    if k > 0 {
      assert t[0] == s[0];
    } else if |s| > 1 {
      assert t[0] == s[1];
    }
    forall j | 0 <= j < |t|
      ensures t[j] < |recs'|
      ensures recs'[t[j]].prev == PrevOf(t, j) && recs'[t[j]].next == NextOf(t, j)
    {
      UnlinkedAt(recs, recs', head, s, k, t, j);
    }
  }

  lemma {:induction false} UnlinkedAt(recs: seq<Block>, recs': seq<Block>, head: Option<nat>, s: seq<nat>, k: nat,
                   t: seq<nat>, j: nat)
    requires Linked(recs, head, s) && k < |s| && |recs'| == |recs|
    requires k + 1 < |s| ==> recs'[s[k + 1]].prev == PrevOf(s, k) && recs'[s[k + 1]].next == recs[s[k + 1]].next
    requires k > 0 ==> recs'[s[k - 1]].next == NextOf(s, k) && recs'[s[k - 1]].prev == recs[s[k - 1]].prev
    requires forall j :: 0 <= j < |s| && j != k - 1 && j != k && j != k + 1 ==> recs'[s[j]] == recs[s[j]]
    requires t == s[..k] + s[k + 1..] && j < |t|
    ensures t[j] < |recs'|
    ensures recs'[t[j]].prev == PrevOf(t, j) && recs'[t[j]].next == NextOf(t, j)
  {
    assert |t| == |s| - 1;
    assert t[j] == if j < k then s[j] else s[j + 1];
    if j < k - 1 {
      assert t[j] == s[j] && t[j + 1] == s[j + 1];
      assert j > 0 ==> t[j - 1] == s[j - 1];
      assert recs'[s[j]] == recs[s[j]];
      assert recs[s[j]].next == NextOf(s, j);
      assert recs[s[j]].prev == PrevOf(s, j);
    } else if j == k - 1 {
      assert t[j] == s[k - 1];
      assert j > 0 ==> t[j - 1] == s[j - 1];
      assert recs'[s[k - 1]].next == NextOf(s, k);
      assert recs[s[k - 1]].prev == PrevOf(s, k - 1);
      assert k < |t| ==> t[k] == s[k + 1];
    } else if j == k {
      assert t[j] == s[k + 1];
      assert recs[s[k + 1]].next == NextOf(s, k + 1);
      assert k + 1 < |t| ==> t[k + 1] == s[k + 2];
      assert k > 0 ==> t[k - 1] == s[k - 1];
    } else {
      assert t[j] == s[j + 1] && t[j - 1] == s[j];
      assert recs'[s[j + 1]] == recs[s[j + 1]];
      assert recs[s[j + 1]].prev == PrevOf(s, j + 1);
      assert recs[s[j + 1]].next == NextOf(s, j + 1);
      assert j + 1 < |t| ==> t[j + 1] == s[j + 2];
    }
  }

  lemma {:induction false} DeleteFrame(recs: seq<Block>, mid: seq<Block>, mid2: seq<Block>, recs': seq<Block>,
                    s: seq<nat>, k: nat)
    requires Linked(recs, if s == [] then None else Some(s[0]), s) && k < |s|
    requires |mid| == |mid2| == |recs'| == |recs|
    requires k + 1 < |s| ==> mid == recs[s[k + 1] := recs[s[k + 1]].(prev := recs[s[k]].prev)]
    requires k + 1 >= |s| ==> mid == recs
    requires k > 0 ==> mid2 == mid[s[k - 1] := mid[s[k - 1]].(next := recs[s[k]].next)]
    requires k == 0 ==> mid2 == mid
    requires recs' == mid2[s[k] := recs[s[k]].(prev := None, next := None)]
    ensures forall i :: 0 <= i < |recs| && i !in s ==> recs'[i] == recs[i]
    ensures forall j :: 0 <= j < |s| && j != k - 1 && j != k && j != k + 1 ==> recs'[s[j]] == recs[s[j]]
    ensures k + 1 < |s| ==> recs'[s[k + 1]].prev == PrevOf(s, k) && recs'[s[k + 1]].next == recs[s[k + 1]].next
    ensures k > 0 ==> recs'[s[k - 1]].next == NextOf(s, k) && recs'[s[k - 1]].prev == recs[s[k - 1]].prev
  {
    assert recs[s[k]].next == NextOf(s, k) && recs[s[k]].prev == PrevOf(s, k);
    if k + 1 < |s| {
      DistinctAt(s, k + 1, k);
    }
    if k > 0 {
      DistinctAt(s, k - 1, k);
      if k + 1 < |s| {
        DistinctAt(s, k - 1, k + 1);
      }
    }
    forall j | 0 <= j < |s| && j != k - 1 && j != k && j != k + 1
      ensures recs'[s[j]] == recs[s[j]]
    {
      DistinctAt(s, j, k);
      if k > 0 {
        DistinctAt(s, j, k - 1);
      }
      if k + 1 < |s| {
        DistinctAt(s, j, k + 1);
      }
    }
    forall i | 0 <= i < |recs| && i !in s ensures recs'[i] == recs[i] {
      assert s[k] in s;
      assert k > 0 ==> s[k - 1] in s;
      assert k + 1 < |s| ==> s[k + 1] in s;
    }
  }

  /** What the three writes of `delete` do to a list, stated on snapshots. */
  lemma {:induction false} UnlinkCorrect(recs: seq<Block>, mid: seq<Block>, mid2: seq<Block>, recs': seq<Block>,
                      head: Option<nat>, s: seq<nat>, k: nat)
    requires Linked(recs, head, s) && k < |s|
    requires |mid| == |mid2| == |recs'| == |recs|
    requires recs[s[k]].next.Some? ==> mid == recs[recs[s[k]].next.value := recs[recs[s[k]].next.value].(prev := recs[s[k]].prev)]
    requires recs[s[k]].next.None? ==> mid == recs
    requires recs[s[k]].prev.Some? ==> mid2 == mid[recs[s[k]].prev.value := mid[recs[s[k]].prev.value].(next := recs[s[k]].next)]
    requires recs[s[k]].prev.None? ==> mid2 == mid
    requires recs' == mid2[s[k] := recs[s[k]].(prev := None, next := None)]
    ensures Linked(recs', if k == 0 then recs[s[k]].next else head, s[..k] + s[k + 1..])
    ensures forall i :: 0 <= i < |recs| && i !in s ==> recs'[i] == recs[i]
  {
    assert recs[s[k]].next == NextOf(s, k) && recs[s[k]].prev == PrevOf(s, k);
    DeleteFrame(recs, mid, mid2, recs', s, k);
    UnlinkedRest(recs, recs', head, s, k);
  }

  /** The links of record `node` lead to records of the registry. */
  ghost predicate LinksInRange(recs: seq<Block>, node: nat)
  {
    node < |recs| &&
    (recs[node].next.Some? ==> recs[node].next.value < |recs|) &&
    (recs[node].prev.Some? ==> recs[node].prev.value < |recs|)
  }

  /**
   * The records after `delete` unlinked record `node`: its successor points
   * back to its predecessor, its predecessor on to its successor, and its
   * own links are cleared.
   */
  ghost function DeleteRecs(recs: seq<Block>, node: nat): (r: seq<Block>)
    requires LinksInRange(recs, node)
    ensures |r| == |recs|
  {
    var rec := recs[node];
    var relinked := if rec.next.Some? then recs[rec.next.value := recs[rec.next.value].(prev := rec.prev)] else recs;
    var bypassed := if rec.prev.Some? then relinked[rec.prev.value := relinked[rec.prev.value].(next := rec.next)] else relinked;
    bypassed[node := rec.(prev := None, next := None)]
  }

  /**
   * Deleting the record at position `k` of a list leaves the list without
   * it, headed by its successor when it was the head; only list members
   * change, and no record's level or address.
   */
  lemma {:induction false} DeleteCorrect(recs: seq<Block>, head: Option<nat>, s: seq<nat>, k: nat)
    requires Linked(recs, head, s) && k < |s|
    ensures LinksInRange(recs, s[k])
    ensures DeleteRecs(recs, s[k])[s[k]].prev == None && DeleteRecs(recs, s[k])[s[k]].next == None
    ensures Linked(DeleteRecs(recs, s[k]), if k == 0 then recs[s[k]].next else head, s[..k] + s[k + 1..])
    ensures forall i :: 0 <= i < |recs| && i !in s ==> DeleteRecs(recs, s[k])[i] == recs[i]
    ensures forall i :: 0 <= i < |recs| ==>
              DeleteRecs(recs, s[k])[i].level == recs[i].level &&
              DeleteRecs(recs, s[k])[i].address == recs[i].address
  {
    var node := s[k];
    var rec := recs[node];
    assert rec.next == NextOf(s, k) && rec.prev == PrevOf(s, k);
    if k + 1 < |s| {
      DistinctAt(s, k + 1, k);
    }
    if k > 0 {
      DistinctAt(s, k - 1, k);
    }
    var mid := if rec.next.Some? then recs[rec.next.value := recs[rec.next.value].(prev := rec.prev)] else recs;
    var mid2 := if rec.prev.Some? then mid[rec.prev.value := mid[rec.prev.value].(next := rec.next)] else mid;
    UnlinkCorrect(recs, mid, mid2, DeleteRecs(recs, node), head, s, k);
  }

  /**
   * `delete`: unlink record `node` from the list it is on, clear its links
   * and return its former successor (the list's new head when `node` was
   * the head).
   */
  method Delete(nodes: array<Block>, node: nat) returns (next: Option<nat>)
    requires LinksInRange(nodes[..], node)
    modifies nodes
    ensures next == old(nodes[node].next)
    ensures nodes[..] == DeleteRecs(old(nodes[..]), node)
  {
    var rec := nodes[node];
    next := rec.next;
    if next.Some? {
      nodes[next.value] := nodes[next.value].(prev := rec.prev);
    }
    if rec.prev.Some? {
      nodes[rec.prev.value] := nodes[rec.prev.value].(next := rec.next);
    }
    nodes[node] := rec.(prev := None, next := None);
  }
}
