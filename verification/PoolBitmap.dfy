/** The allocation bitmap of the memory pool: one bit per block, lowest bit first. */
module PoolBitmap {

  predicate Bit(b: bv8, k: nat)
    requires k < 8
  {
    (b >> k) & 1 == 1
  }

  function Mask(k: nat): bv8
    requires k < 8
  {
    (1 as bv8) << k
  }

  /** The index of the lowest set bit. */
  function CountTrailingZeros(b: bv8): (r: nat)
    requires b != 0
    ensures r < 8 && Bit(b, r)
    ensures forall k :: 0 <= k < r ==> !Bit(b, k)
  {
    if b & 1 != 0 then 0
    else if b & 2 != 0 then 1
    else if b & 4 != 0 then 2
    else if b & 8 != 0 then 3
    else if b & 16 != 0 then 4
    else if b & 32 != 0 then 5
    else if b & 64 != 0 then 6
    else 7
  }

  lemma SetBit(b: bv8, k: nat, j: nat)
    requires k < 8 && j < 8
    ensures Bit(b | Mask(k), j) == (j == k || Bit(b, j))
  {
  }

  lemma ClearBit(b: bv8, k: nat, j: nat)
    requires k < 8 && j < 8
    ensures Bit(b & !Mask(k), j) == (j != k && Bit(b, j))
  {
  }

  lemma TestBit(b: bv8, k: nat)
    requires k < 8
    ensures b & Mask(k) != 0 <==> Bit(b, k)
  {
  }

  lemma Complement(b: bv8, k: nat)
    requires k < 8
    ensures Bit(!b, k) == !Bit(b, k)
  {
  }

  lemma NoneSet(b: bv8, k: nat)
    requires k < 8
    ensures !b == 0 ==> Bit(b, k)
  {
  }
}
