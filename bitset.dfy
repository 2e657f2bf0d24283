/**
 * The busy bitmap of buddy.c: one bit per tree node, packed eight to a
 * byte, most significant bit first. A set bit means "allocated or split".
 */
module Bitset {

  /** `num_bytes_for_bitset`: the fewest bytes that hold `numBits` bits. */
  function NumBytesForBitset(numBits: nat): (r: nat)
    ensures r * 8 >= numBits && r * 8 < numBits + 8
  {
    if numBits % 8 == 0 then numBits / 8 else numBits / 8 + 1
  }

  /** `mask_idx`: the single bit of node `idx` within its byte, high bit first. */
  function MaskIdx(idx: nat): (r: bv8)
    ensures r != 0 && r & (r - 1) == 0
    ensures idx % 8 == 0 ==> r == 0x80
    ensures idx % 8 == 7 ==> r == 0x01
    ensures r == (0x80 as bv8) >> (idx % 8)
  {
    (1 as bv8) << (7 - idx % 8)
  }

  /** The bit of node `idx`. */
  function Bit(bits: seq<bv8>, idx: nat): bool
    requires idx / 8 < |bits|
  {
    bits[idx / 8] & MaskIdx(idx) != 0
  }

  /** Masks of different positions within a byte do not overlap. */
  lemma {:induction false} MasksDisjoint(i: nat, j: nat)
    ensures i % 8 != j % 8 <==> MaskIdx(i) & MaskIdx(j) == 0
  {
  }

  /** Or-ing in the mask of `i` sets bit `i` and leaves every other position of the byte alone. */
  lemma {:induction false} OrMask(x: bv8, i: nat, j: nat)
    ensures (x | MaskIdx(i)) & MaskIdx(j) != 0 <==> i % 8 == j % 8 || x & MaskIdx(j) != 0
  {
    MasksDisjoint(i, j);
  }

  /** And-ing with the complement of the mask of `i` clears bit `i` and nothing else. */
  lemma {:induction false} AndNotMask(x: bv8, i: nat, j: nat)
    ensures (x & !MaskIdx(i)) & MaskIdx(j) != 0 <==> i % 8 != j % 8 && x & MaskIdx(j) != 0
  {
    MasksDisjoint(i, j);
  }

  /** `mark_used` on a bitmap: the byte of `idx` with the mask of `idx` or-ed in. */
  function SetBit(bits: seq<bv8>, idx: nat): (r: seq<bv8>)
    requires idx / 8 < |bits|
    ensures |r| == |bits|
  {
    bits[idx / 8 := bits[idx / 8] | MaskIdx(idx)]
  }

  /** `mark_unused` on a bitmap: the byte of `idx` and-ed with the complement of its mask. */
  function ClearBit(bits: seq<bv8>, idx: nat): (r: seq<bv8>)
    requires idx / 8 < |bits|
    ensures |r| == |bits|
  {
    bits[idx / 8 := bits[idx / 8] & !MaskIdx(idx)]
  }

  /** Setting bit `idx` sets that bit and leaves every other bit as it was. */
  lemma {:induction false} SetBitCorrect(bits: seq<bv8>, idx: nat)
    requires idx / 8 < |bits|
    ensures forall j: nat {:trigger Bit(SetBit(bits, idx), j)} :: j / 8 < |bits| ==>
              (Bit(SetBit(bits, idx), j) <==> j == idx || Bit(bits, j))
  {
    var r := SetBit(bits, idx);
    forall j: nat | j / 8 < |bits| ensures Bit(r, j) <==> j == idx || Bit(bits, j) {
      if j / 8 == idx / 8 {
        OrMask(bits[idx / 8], idx, j);
        assert j % 8 == idx % 8 ==> j == idx;
      }
    }
  }

  /** Clearing bit `idx` clears that bit and leaves every other bit as it was. */
  lemma {:induction false} ClearBitCorrect(bits: seq<bv8>, idx: nat)
    requires idx / 8 < |bits|
    ensures forall j: nat {:trigger Bit(ClearBit(bits, idx), j)} :: j / 8 < |bits| ==>
              (Bit(ClearBit(bits, idx), j) <==> j != idx && Bit(bits, j))
  {
    var r := ClearBit(bits, idx);
    forall j: nat | j / 8 < |bits| ensures Bit(r, j) <==> j != idx && Bit(bits, j) {
      if j / 8 == idx / 8 {
        AndNotMask(bits[idx / 8], idx, j);
        assert j % 8 == idx % 8 ==> j == idx;
      }
    }
  }
}
