/**
 * The implicit tree index of buddy.c: heap numbering of the nodes of a
 * complete binary tree with levels `0..max_level` (root 0, children
 * `2i+1` and `2i+2`), and the dual addressing of a block by
 * `(level, address)`.
 *
 * `LevelOf` and `AddrOf` are the geometry the numbering implies (the
 * level and the byte offset of node `i`); `IndexOfAddr` and
 * `BlockToIdxInjective` show that `BlockToIdx` inverts them.
 */
module TreeIndex {
  import opened Geometry

  /** `left_child`: the right child is the next index. */
  function LeftChild(parentIdx: nat): (r: nat)
    ensures r > parentIdx
    ensures Parent(r) == parentIdx && Parent(r + 1) == parentIdx
  {
    2 * parentIdx + 1
  }

  /** `parent`: only ever applied to a non-root index. */
  function Parent(child: nat): (r: nat)
    requires child >= 1
    ensures r < child && 2 * r + 1 <= child <= 2 * r + 2
  {
    (child - 1) / 2
  }

  /** The index part of `buddy_idx`: the other child of the same parent. */
  function SiblingIdx(idx: nat): (r: nat)
    requires idx >= 1
    ensures r >= 1 && r != idx && Parent(r) == Parent(idx)
  {
    if idx % 2 == 0 then idx - 1 else idx + 1
  }

  lemma {:induction false} SiblingInvolution(idx: nat)
    requires idx >= 1
    ensures SiblingIdx(SiblingIdx(idx)) == idx
  {
  }

  /** The depth of node `i` in the tree (0 for the root). */
  function LevelOf(i: nat): nat
    decreases i
  {
    if i == 0 then 0 else LevelOf(Parent(i)) + 1
  }

  /** Level `l` holds exactly the indices `2^l - 1 .. 2^(l+1) - 2`. */
  lemma {:induction false} LevelBounds(i: nat)
    ensures Pow2(LevelOf(i)) - 1 <= i < Pow2(LevelOf(i) + 1) - 1
    decreases i
  {
    if i > 0 {
      LevelBounds(Parent(i));
    }
  }

  lemma {:induction false} LevelUnique(i: nat, l: nat)
    requires Pow2(l) - 1 <= i < Pow2(l + 1) - 1
    ensures LevelOf(i) == l
  {
    var k := LevelOf(i);
    LevelBounds(i);
    if k < l {
      Pow2Monotone(k + 1, l);
    } else if k > l {
      Pow2Monotone(l + 1, k);
    }
  }

  lemma {:induction false} ChildLevels(i: nat)
    ensures LevelOf(LeftChild(i)) == LevelOf(i) + 1
    ensures LevelOf(LeftChild(i) + 1) == LevelOf(i) + 1
  {
  }

  /** The node count of a tree with levels `0..max_level`. */
  function NumNodes(maxLevel: nat): (r: nat)
    ensures r >= 1
    ensures LevelOf(r - 1) == maxLevel && LevelOf(r) == maxLevel + 1
  {
    LevelUnique(Pow2(maxLevel + 1) - 2, maxLevel);
    LevelUnique(Pow2(maxLevel + 1) - 1, maxLevel + 1);
    Pow2(maxLevel + 1) - 1
  }

  /** An index is below the node count exactly when its level is at most `max_level`. */
  lemma {:induction false} NodesInRange(maxLevel: nat, i: nat)
    ensures i < NumNodes(maxLevel) <==> LevelOf(i) <= maxLevel
  {
    var l := LevelOf(i);
    assert NumNodes(maxLevel) == Pow2(maxLevel + 1) - 1;
    LevelBounds(i);
    if l <= maxLevel {
      Pow2Monotone(l + 1, maxLevel + 1);
    } else {
      Pow2Monotone(maxLevel + 1, l);
    }
  }

  lemma {:induction false} DivBelow(x: nat, k: nat, m: nat)
    requires m > 0 && x < k * m
    ensures x / m < k
  {
    if x / m >= k {
      MulLe(k, x / m, m);
      assert false;
    }
  }

  /**
   * `block_to_idx`: the node index of the block at `level` and `address`.
   * A block inside the arena lands on its own level's band of indices.
   */
  function BlockToIdx(maxLevel: nat, pageSize: nat, level: nat, address: nat): (r: nat)
    requires level <= maxLevel && pageSize >= 1
    ensures address < ArenaSize(maxLevel, pageSize) ==>
              Pow2(level) - 1 <= r <= Pow2(level + 1) - 2 &&
              LevelOf(r) == level && r < NumNodes(maxLevel)
  {
    var size := BlockSizeAtLevel(maxLevel, pageSize, level);
    InBand(maxLevel, pageSize, level, address);
    DivNat(address, size);
    var q: nat := address / size;
    (Pow2(level) - 1) + q
  }

  lemma {:induction false} InBand(maxLevel: nat, pageSize: nat, level: nat, address: nat)
    requires level <= maxLevel && pageSize >= 1
    ensures BlockSizeAtLevel(maxLevel, pageSize, level) >= 1
    ensures address < ArenaSize(maxLevel, pageSize) ==>
              var r := (Pow2(level) - 1) + address / BlockSizeAtLevel(maxLevel, pageSize, level);
              Pow2(level) - 1 <= r <= Pow2(level + 1) - 2 && LevelOf(r) == level && r < NumNodes(maxLevel)
  {
    var size := BlockSizeAtLevel(maxLevel, pageSize, level);
    SizeIsPages(maxLevel, pageSize, level);
    if address < ArenaSize(maxLevel, pageSize) {
      BlockSizeTiles(maxLevel, pageSize, level);
      assert address < Pow2(level) * size;
      BandOf(maxLevel, level, address, size);
    }
  }

  /** An address inside the arena divided by the level's size is an index on that level. */
  lemma {:induction false} BandOf(maxLevel: nat, level: nat, address: nat, size: nat)
    requires level <= maxLevel && size >= 1 && address < Pow2(level) * size
    ensures 0 <= address / size < Pow2(level)
    ensures Pow2(level) - 1 + address / size <= Pow2(level + 1) - 2
    ensures LevelOf(Pow2(level) - 1 + address / size) == level
    ensures Pow2(level) - 1 + address / size < NumNodes(maxLevel)
  {
    DivBelow(address, Pow2(level), size);
    BandLevel(maxLevel, level, address / size);
  }

  /** The `q`-th index of level `level` has that level. */
  lemma {:induction false} BandLevel(maxLevel: nat, level: nat, q: nat)
    requires level <= maxLevel && q < Pow2(level)
    ensures Pow2(level) - 1 + q <= Pow2(level + 1) - 2
    ensures LevelOf(Pow2(level) - 1 + q) == level
    ensures Pow2(level) - 1 + q < NumNodes(maxLevel)
  {
    var r := Pow2(level) - 1 + q;
    assert Pow2(level + 1) == 2 * Pow2(level);
    LevelUnique(r, level);
    NodesInRange(maxLevel, r);
  }

  /** `buddy_idx`: the node index of a non-root block's buddy, on the same level. */
  function BuddyIdx(maxLevel: nat, pageSize: nat, b: Block): (r: nat)
    requires 1 <= b.level <= maxLevel && pageSize >= 1
    ensures r != BlockToIdx(maxLevel, pageSize, b.level, b.address)
    ensures r >= 1 && Parent(r) == Parent(BlockToIdx(maxLevel, pageSize, b.level, b.address))
    ensures b.address < ArenaSize(maxLevel, pageSize) ==> LevelOf(r) == b.level
  {
    SiblingIdx(BlockToIdx(maxLevel, pageSize, b.level, b.address))
  }

  /** The byte offset of node `i`: a right child starts half its parent's size further on. */
  function AddrOf(maxLevel: nat, pageSize: nat, i: nat): nat
    requires LevelOf(i) <= maxLevel
    decreases i
  {
    if i == 0 then 0
    else AddrOf(maxLevel, pageSize, Parent(i))
         + (if i % 2 == 0 then BlockSizeAtLevel(maxLevel, pageSize, LevelOf(i)) else 0)
  }

  /** Node `i` is the `(i + 1 - 2^level)`-th block of its level. */
  lemma {:induction false} AddrFormula(maxLevel: nat, pageSize: nat, i: nat)
    requires LevelOf(i) <= maxLevel
    ensures AddrOf(maxLevel, pageSize, i)
         == (i + 1 - Pow2(LevelOf(i))) * BlockSizeAtLevel(maxLevel, pageSize, LevelOf(i))
    decreases i
  {
    LevelBounds(i);
    if i > 0 {
      var p := Parent(i);
      var l := LevelOf(i);
      AddrFormula(maxLevel, pageSize, p);
      LevelBounds(p);
      Halving(maxLevel, pageSize, l - 1);
      var s := BlockSizeAtLevel(maxLevel, pageSize, l);
      var op := p + 1 - Pow2(l - 1);
      var oi := i + 1 - Pow2(l);
      OffsetOfChild(i, p, l, Pow2(l - 1));
      Distrib(op, s);
    }
  }

  lemma {:induction false} OffsetOfChild(i: nat, p: nat, l: nat, half: nat)
    requires l >= 1 && Pow2(l) == 2 * half && (i == 2 * p + 1 || i == 2 * p + 2)
    ensures i % 2 == 0 ==> i + 1 - Pow2(l) == 2 * (p + 1 - half) + 1
    ensures i % 2 == 1 ==> i + 1 - Pow2(l) == 2 * (p + 1 - half)
  {
  }

  lemma {:induction false} Distrib(op: int, s: int)
    ensures (2 * op + 1) * s == op * (2 * s) + s
    ensures (2 * op) * s == op * (2 * s)
  {
  }

  /** Node `i` lies inside the arena and is aligned to its size. */
  lemma {:induction false} AddrInArena(maxLevel: nat, pageSize: nat, i: nat)
    requires LevelOf(i) <= maxLevel && pageSize >= 1
    ensures AddrOf(maxLevel, pageSize, i) + BlockSizeAtLevel(maxLevel, pageSize, LevelOf(i))
         <= ArenaSize(maxLevel, pageSize)
    ensures AddrOf(maxLevel, pageSize, i) % BlockSizeAtLevel(maxLevel, pageSize, LevelOf(i)) == 0
  {
    var l := LevelOf(i);
    var s := BlockSizeAtLevel(maxLevel, pageSize, l);
    SizeIsPages(maxLevel, pageSize, l);
    BlockSizeTiles(maxLevel, pageSize, l);
    AddrFormula(maxLevel, pageSize, i);
    LevelBounds(i);
    var off := i + 1 - Pow2(l);
    MulLe(off + 1, Pow2(l), s);
    assert (off + 1) * s == off * s + s;
    MulMod(off, s);
  }

  /** The dual addressing agrees: `block_to_idx` of node `i`'s level and address is `i`. */
  lemma {:induction false} IndexOfAddr(maxLevel: nat, pageSize: nat, i: nat)
    requires LevelOf(i) <= maxLevel && pageSize >= 1
    ensures BlockToIdx(maxLevel, pageSize, LevelOf(i), AddrOf(maxLevel, pageSize, i)) == i
  {
    var l := LevelOf(i);
    var s := BlockSizeAtLevel(maxLevel, pageSize, l);
    SizeIsPages(maxLevel, pageSize, l);
    AddrFormula(maxLevel, pageSize, i);
    LevelBounds(i);
    MulMod(i + 1 - Pow2(l), s);
  }

  /** Distinct aligned blocks inside the arena have distinct node indices. */
  lemma {:induction false} BlockToIdxInjective(maxLevel: nat, pageSize: nat, l1: nat, a1: nat, l2: nat, a2: nat)
    requires l1 <= maxLevel && l2 <= maxLevel && pageSize >= 1
    requires a1 < ArenaSize(maxLevel, pageSize) && a2 < ArenaSize(maxLevel, pageSize)
    requires a1 % BlockSizeAtLevel(maxLevel, pageSize, l1) == 0
    requires a2 % BlockSizeAtLevel(maxLevel, pageSize, l2) == 0
    requires BlockToIdx(maxLevel, pageSize, l1, a1) == BlockToIdx(maxLevel, pageSize, l2, a2)
    ensures l1 == l2 && a1 == a2
  {
    var idx := BlockToIdx(maxLevel, pageSize, l1, a1);
    assert LevelOf(idx) == l1 && LevelOf(idx) == l2;
    SizeIsPages(maxLevel, pageSize, l1);
    AlignedQuotient(a1, a2, BlockSizeAtLevel(maxLevel, pageSize, l1));
  }

  /** Two multiples of `m` with the same quotient are equal. */
  lemma {:induction false} AlignedQuotient(a1: nat, a2: nat, m: nat)
    requires m >= 1 && a1 % m == 0 && a2 % m == 0 && a1 / m == a2 / m
    ensures a1 == a2
  {
    assert a1 == (a1 / m) * m + a1 % m;
    assert a2 == (a2 / m) * m + a2 % m;
  }

  /**
   * `split` geometry: the children of node `i` sit one level down, the left
   * one at the parent's address and the right one half the parent's size on.
   */
  lemma {:induction false} SplitGeometry(maxLevel: nat, pageSize: nat, i: nat)
    requires LevelOf(i) < maxLevel
    ensures LevelOf(LeftChild(i)) == LevelOf(i) + 1 == LevelOf(LeftChild(i) + 1)
    ensures AddrOf(maxLevel, pageSize, LeftChild(i)) == AddrOf(maxLevel, pageSize, i)
    ensures AddrOf(maxLevel, pageSize, LeftChild(i) + 1)
         == AddrOf(maxLevel, pageSize, i) + BlockSizeAtLevel(maxLevel, pageSize, LevelOf(i) + 1)
  {
    ChildLevels(i);
  }

  /** Every block starts on a page boundary. */
  lemma {:induction false} PageAligned(maxLevel: nat, pageSize: nat, i: nat)
    requires LevelOf(i) <= maxLevel && pageSize >= 1
    ensures AddrOf(maxLevel, pageSize, i) % pageSize == 0
  {
    AddrFormula(maxLevel, pageSize, i);
    LevelBounds(i);
    var q: nat := i + 1 - Pow2(LevelOf(i));
    var k := Pow2(maxLevel - LevelOf(i));
    var size := BlockSizeAtLevel(maxLevel, pageSize, LevelOf(i));
    BlockSizeFormula(maxLevel, pageSize, LevelOf(i));
    MulAssoc(q, k, pageSize);
    MulMod(q * k, pageSize);
  }

  lemma {:induction false} MulAssoc(a: nat, b: nat, c: nat)
    ensures a * (b * c) == (a * b) * c
  {
  }

  /** A node and its sibling sit on the same level, so both are in range or neither is. */
  lemma {:induction false} SiblingInRange(maxLevel: nat, idx: nat)
    requires 1 <= idx < NumNodes(maxLevel)
    ensures LevelOf(SiblingIdx(idx)) == LevelOf(idx)
    ensures SiblingIdx(idx) < NumNodes(maxLevel)
  {
    NodesInRange(maxLevel, idx);
    NodesInRange(maxLevel, SiblingIdx(idx));
  }

  /** The ancestor of node `x` on level `l` (`x` itself on its own level). */
  function AncestorAt(x: nat, l: nat): (r: nat)
    requires l <= LevelOf(x)
    ensures LevelOf(r) == l && r <= x
    decreases x
  {
    if LevelOf(x) == l then x else AncestorAt(Parent(x), l)
  }

  /** Going one level up the ancestor chain is taking the parent. */
  lemma {:induction false} ParentOfAncestor(x: nat, l: nat)
    requires l < LevelOf(x)
    ensures AncestorAt(x, l + 1) >= 1
    ensures Parent(AncestorAt(x, l + 1)) == AncestorAt(x, l)
    decreases x
  {
    if LevelOf(x) != l + 1 {
      ParentOfAncestor(Parent(x), l);
    }
  }

  /** A block lies inside the block of each of its ancestors. */
  lemma {:induction false} NestedRange(maxLevel: nat, pageSize: nat, x: nat, l: nat)
    requires l <= LevelOf(x) <= maxLevel
    ensures AddrOf(maxLevel, pageSize, AncestorAt(x, l)) <= AddrOf(maxLevel, pageSize, x)
    ensures AddrOf(maxLevel, pageSize, x) + BlockSizeAtLevel(maxLevel, pageSize, LevelOf(x))
         <= AddrOf(maxLevel, pageSize, AncestorAt(x, l)) + BlockSizeAtLevel(maxLevel, pageSize, l)
    decreases x
  {
    if LevelOf(x) != l {
      var p := Parent(x);
      NestedRange(maxLevel, pageSize, p, l);
      Halving(maxLevel, pageSize, LevelOf(p));
    }
  }

  /** Distinct blocks of one level do not overlap; the lower index comes first. */
  lemma {:induction false} SameLevelDisjoint(maxLevel: nat, pageSize: nat, i: nat, j: nat)
    requires LevelOf(i) == LevelOf(j) <= maxLevel && i < j
    ensures AddrOf(maxLevel, pageSize, i) + BlockSizeAtLevel(maxLevel, pageSize, LevelOf(i))
         <= AddrOf(maxLevel, pageSize, j)
  {
    var l := LevelOf(i);
    var s := BlockSizeAtLevel(maxLevel, pageSize, l);
    AddrFormula(maxLevel, pageSize, i);
    AddrFormula(maxLevel, pageSize, j);
    LevelBounds(i);
    LevelBounds(j);
    var oi := i + 1 - Pow2(l);
    var oj := j + 1 - Pow2(l);
    MulLe(oi + 1, oj, s);
    assert (oi + 1) * s == oi * s + s;
  }
}
