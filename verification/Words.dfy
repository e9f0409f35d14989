/** Machine words as the components use them. */
module Words {
  const TWO_31 := 0x8000_0000
  const TWO_32 := 0x1_0000_0000
  const TWO_64 := 0x1_0000_0000_0000_0000

  type U32 = x: int | 0 <= x < TWO_32
  type U64 = x: int | 0 <= x < TWO_64

  /** The 64-bit difference of two timestamps, which wraps when the clock has gone backwards. */
  function Elapsed(now: U64, since: U64): U64 {
    if now >= since then now - since else now - since + TWO_64
  }

  /** Counted on from `since` in 64 bits, that difference leads to `now`. */
  lemma ElapsedLeadsTo(now: U64, since: U64)
    ensures (since + Elapsed(now, since)) % 0x1_0000_0000_0000_0000 == now
  {
    var x := since + Elapsed(now, since);
    assert x == now || x == now + TWO_64;
    assert (now + TWO_64) % TWO_64 == now % TWO_64;
  }

  function Min(a: nat, b: nat): nat {
    if a < b then a else b
  }
}
