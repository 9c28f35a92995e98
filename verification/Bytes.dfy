/** Single bits of a byte. */
module Bytes {

  /** 1 << k in a byte. */
  function Mask(k: nat): bv8
    requires k < 8
  {
    if k == 0 then 1 else if k == 1 then 2 else if k == 2 then 4 else if k == 3 then 8
    else if k == 4 then 16 else if k == 5 then 32 else if k == 6 then 64 else 128
  }

  predicate BitAt(x: bv8, k: nat)
    requires k < 8
  {
    x & Mask(k) != 0
  }

  /** Bit k of a byte is the lowest one after shifting it right k times. */
  lemma BitMeans(x: bv8, k: nat)
    requires k < 8
    ensures BitAt(x, k) <==> (x >> k) & 1 == 1
  {
    assert k == 0 || k == 1 || k == 2 || k == 3 || k == 4 || k == 5 || k == 6 || k == 7;
  }

  lemma SetBit(x: bv8, k: nat, j: nat)
    requires k < 8 && j < 8
    ensures BitAt(x | Mask(k), j) <==> j == k || BitAt(x, j)
  {}

  lemma ClearBit(x: bv8, k: nat, j: nat)
    requires k < 8 && j < 8
    ensures BitAt(x & !Mask(k), j) <==> j != k && BitAt(x, j)
  {}

  lemma ConstantBits(j: nat)
    requires j < 8
    ensures !BitAt(0, j) && BitAt(0xff, j)
  {}
}
