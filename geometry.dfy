/**
 * Record shapes and block sizes of the allocator header (buddy.h).
 *
 * `block_t` is the per-node record; its `next`/`prev` pointers become
 * optional indices into the record registry. Sizes are computed as
 * `(1 << (max_level - level)) * page_size` in 32-bit arithmetic; with
 * `max_level + page_size_order <= 31` no size or address wraps, which
 * `SizesFitU32` states.
 */
module Geometry {
  import opened Wrappers

  /** `1 << n` without a width limit. */
  function Pow2(n: nat): (r: nat)
    ensures r >= 1
  {
    if n == 0 then 1 else 2 * Pow2(n - 1)
  }

  lemma {:induction false} Pow2Add(a: nat, b: nat)
    ensures Pow2(a + b) == Pow2(a) * Pow2(b)
  {
    if a > 0 {
      Pow2Add(a - 1, b);
      assert Pow2(a + b) == 2 * Pow2(a - 1 + b);
    }
  }

  lemma {:induction false} Pow2Monotone(a: nat, b: nat)
    requires a <= b
    ensures Pow2(a) <= Pow2(b)
  {
    if a < b {
      Pow2Monotone(a, b - 1);
    }
  }

  /** A block record: tree level, byte offset in the arena, free-list links. */
  datatype Block = Block(level: nat, address: nat, next: Option<nat>, prev: Option<nat>)

  /**
   * `block_size_at_level`: the size of every block at `level`, defined by
   * halving from the arena down; `BlockSizeFormula` gives the header's
   * `(1 << (max_level - level)) * page_size`.
   */
  function BlockSizeAtLevel(maxLevel: nat, pageSize: nat, level: nat): (r: nat)
    requires level <= maxLevel
    ensures r >= pageSize && (level == maxLevel ==> r == pageSize)
    decreases maxLevel - level
  {
    if level == maxLevel then pageSize else 2 * BlockSizeAtLevel(maxLevel, pageSize, level + 1)
  }

  /** Bytes managed by an allocator: the size of the level-0 block. */
  function ArenaSize(maxLevel: nat, pageSize: nat): nat
  {
    BlockSizeAtLevel(maxLevel, pageSize, 0)
  }

  /** The block size is the page size shifted by the levels below. */
  lemma {:induction false} BlockSizeFormula(maxLevel: nat, pageSize: nat, level: nat)
    requires level <= maxLevel
    ensures BlockSizeAtLevel(maxLevel, pageSize, level) == Pow2(maxLevel - level) * pageSize
    decreases maxLevel - level
  {
    if level < maxLevel {
      BlockSizeFormula(maxLevel, pageSize, level + 1);
      assert Pow2(maxLevel - level) == 2 * Pow2(maxLevel - (level + 1));
    }
  }

  /** `2^level` blocks of a level tile the arena. */
  lemma {:induction false} BlockSizeTiles(maxLevel: nat, pageSize: nat, level: nat)
    requires level <= maxLevel
    ensures BlockSizeAtLevel(maxLevel, pageSize, level) * Pow2(level) == ArenaSize(maxLevel, pageSize)
    ensures ArenaSize(maxLevel, pageSize) == Pow2(maxLevel) * pageSize
  {
    BlockSizeFormula(maxLevel, pageSize, level);
    BlockSizeFormula(maxLevel, pageSize, 0);
    Pow2Add(maxLevel - level, level);
    MulSwap(Pow2(maxLevel - level), pageSize, Pow2(level));
  }

  lemma {:induction false} MulSwap(a: nat, b: nat, c: nat)
    ensures a * b * c == a * c * b
  {
  }

  /** `block_size`: the size of a block record, a `2^level`-th of the arena. */
  function BlockSize(maxLevel: nat, pageSize: nat, b: Block): (r: nat)
    requires b.level <= maxLevel
    ensures r * Pow2(b.level) == ArenaSize(maxLevel, pageSize)
  {
    BlockSizeTiles(maxLevel, pageSize, b.level);
    BlockSizeAtLevel(maxLevel, pageSize, b.level)
  }

  /** Each level down halves the block size. */
  lemma {:induction false} Halving(maxLevel: nat, pageSize: nat, level: nat)
    requires level < maxLevel
    ensures BlockSizeAtLevel(maxLevel, pageSize, level)
         == 2 * BlockSizeAtLevel(maxLevel, pageSize, level + 1)
  {
  }

  /** Every block size is a whole number of pages. */
  lemma {:induction false} SizeIsPages(maxLevel: nat, pageSize: nat, level: nat)
    requires level <= maxLevel
    ensures pageSize >= 1 ==> BlockSizeAtLevel(maxLevel, pageSize, level) % pageSize == 0
    ensures pageSize >= 1 ==> BlockSizeAtLevel(maxLevel, pageSize, level) >= pageSize
  {
    var k := Pow2(maxLevel - level);
    BlockSizeFormula(maxLevel, pageSize, level);
    if pageSize > 0 {
      assert (k * pageSize) % pageSize == 0 by {
        MulMod(k, pageSize);
      }
    }
  }

  lemma {:induction false} TimesAtLeastOne(s: nat, k: nat)
    requires k >= 1
    ensures s <= s * k
  {
    MulLe(1, k, s);
  }

  lemma {:induction false} MulLe(a: nat, b: nat, m: nat)
    requires a <= b
    ensures a * m <= b * m
  {
    var d := b - a;
    assert b * m == a * m + d * m;
  }

  lemma {:induction false} DivNat(x: nat, m: nat)
    requires m >= 1
    ensures 0 <= x / m <= x
  {
  }

  /** Division and remainder are determined by any exact decomposition. */
  lemma {:induction false} DivModUnique(x: nat, m: nat, q: nat, r: nat)
    requires m > 0 && r < m && x == q * m + r
    ensures x / m == q && x % m == r
  {
    var q', r' := x / m, x % m;
    assert x == q' * m + r';
    if q' < q {
      MulLe(q' + 1, q, m);
      assert false;
    } else if q < q' {
      MulLe(q + 1, q', m);
      assert false;
    }
  }

  lemma {:induction false} MulMod(k: nat, m: nat)
    requires m > 0
    ensures (k * m) % m == 0 && (k * m) / m == k
  {
    DivModUnique(k * m, m, k, 0);
  }

  /**
   * With `max_level + page_size_order <= 31` every size and every address
   * below the end of the arena fits the 32-bit arithmetic of the header.
   */
  lemma {:induction false} Pow2Of31()
    ensures Pow2(31) == 0x8000_0000
  {
    assert Pow2(4) == 16;
    assert Pow2(8) == 256 by { Pow2Add(4, 4); }
    assert Pow2(16) == 0x1_0000 by { Pow2Add(8, 8); }
    assert Pow2(15) == 0x8000 by { Pow2Add(8, 7); }
    Pow2Add(16, 15);
  }

  lemma {:induction false} SizesFitU32(maxLevel: nat, pageSizeOrder: nat, level: nat)
    requires maxLevel + pageSizeOrder <= 31
    requires level <= maxLevel
    ensures BlockSizeAtLevel(maxLevel, Pow2(pageSizeOrder), level)
         <= ArenaSize(maxLevel, Pow2(pageSizeOrder))
         <= 0x8000_0000
  {
    var ps := Pow2(pageSizeOrder);
    var s := BlockSizeAtLevel(maxLevel, ps, level);
    var arena := ArenaSize(maxLevel, ps);
    BlockSizeTiles(maxLevel, ps, level);
    TimesAtLeastOne(s, Pow2(level));
    Pow2Add(maxLevel, pageSizeOrder);
    Pow2Monotone(maxLevel + pageSizeOrder, 31);
    Pow2Of31();
  }
}
