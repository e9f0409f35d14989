/** How the callback queue rounds its depth up to a power of two. */
module QueueCapacity {
  import opened Bits
  import opened Words

  /** n |= n >> w for w = shift, 2 * shift, and so on up to 32. */
  function Smear(n: nat, shift: nat): nat
    requires shift >= 1
    decreases 64 - shift
  {
    if shift > 32 then n else Smear(BitOr(n, ShiftRight(n, shift)), 2 * shift)
  }

  /** The code's rounding, in 64-bit arithmetic. */
  function NextPow2(n: nat): nat {
    if n == 0 then 1 else (Smear(n - 1, 1) + 1) % TWO_64
  }

  function Capacity(depth: nat): nat {
    NextPow2(if depth < 16 then 16 else depth)
  }

  /** v has its highest bit at position t, and its top w bits are all ones. */
  ghost predicate TopOnes(v: nat, t: nat, w: nat) {
    Pow2(t + 1) - (if w <= t + 1 then Pow2(t + 1 - w) else 1) <= v < Pow2(t + 1)
  }

  /** Shifting by w and ORing doubles the run of leading ones. */
  lemma SmearStep(v: nat, t: nat, w: nat)
    requires w >= 1 && TopOnes(v, t, w)
    ensures TopOnes(BitOr(v, ShiftRight(v, w)), t, 2 * w)
  {
    var u := ShiftRight(v, w);
    if w >= t + 1 {
      Pow2Monotone(t + 1, w);
      ShiftSplits(v, w);
      MulCancel(u, 1, Pow2(w));
      assert u == 0;
    } else {
      DoubleOnes(v, u, w, t + 1 - w);
    }
  }

  lemma DoubleOnes(v: nat, u: nat, w: nat, m: nat)
    requires u == ShiftRight(v, w) && Pow2(w + m) - Pow2(m) <= v < Pow2(w + m)
    ensures Pow2(w + m) - (if w <= m then Pow2(m - w) else 1) <= BitOr(v, u) < Pow2(w + m)
  {
    Pow2Sum(w, m);
    ShiftedOnes(v, w, m);
    var lo := HighOnes(v, Pow2(w), Pow2(m));
    OnesOr(v, u, Pow2(w) - 1, lo, m);
  }

  lemma HighOnes(v: nat, d: nat, p: nat) returns (lo: nat)
    requires d >= 1 && d * p - p <= v < d * p
    ensures lo < p && v == (d - 1) * p + lo && (d - 1) * p + p == d * p
  {
    assert (d - 1) * p == d * p - p;
    lo := v - (d - 1) * p;
  }

  lemma OnesOr(v: nat, u: nat, x: nat, lo: nat, m: nat)
    requires lo < Pow2(m) && u < Pow2(m) && v == x * Pow2(m) + lo
    ensures x * Pow2(m) + u <= BitOr(v, u) < x * Pow2(m) + Pow2(m)
  {
    OrHigh(x, lo, u, m);
    OrBounds(lo, u, m);
  }

  lemma ShiftedOnes(v: nat, w: nat, m: nat)
    requires Pow2(w) * Pow2(m) - Pow2(m) <= v < Pow2(w) * Pow2(m)
    ensures Pow2(m) - (if w <= m then Pow2(m - w) else 1) <= ShiftRight(v, w) < Pow2(m)
  {
    var u := ShiftRight(v, w);
    ShiftSplits(v, w);
    QuotientBelow(u, v, Pow2(w), Pow2(m));
    OnesFloor(v, u, w, m);
  }

  lemma QuotientBelow(u: nat, v: nat, d: nat, p: nat)
    requires u * d <= v < d * p
    ensures u < p
  {
    MulCancel(u, p, d);
  }

  lemma OnesFloor(v: nat, u: nat, w: nat, m: nat)
    requires Pow2(w) * Pow2(m) - Pow2(m) <= v < (u + 1) * Pow2(w)
    ensures Pow2(m) - (if w <= m then Pow2(m - w) else 1) <= u
  {
    if w <= m {
      Pow2Sum(w, m - w);
      FloorWithin(Pow2(w), Pow2(m), Pow2(m - w), u);
    } else {
      Pow2Monotone(m + 1, w);
      FloorBelow(Pow2(w), Pow2(m), u);
    }
  }

  lemma FloorWithin(d: nat, p: nat, q: nat, u: nat)
    requires p == d * q && d * p - p < (u + 1) * d
    ensures p - q <= u
  {
    assert (p - q) * d == d * p - d * q;
    MulCancel(p - q, u + 1, d);
  }

  lemma FloorBelow(d: nat, p: nat, u: nat)
    requires p <= d && d * p - p < (u + 1) * d
    ensures p - 1 <= u
  {
    assert (p - 1) * d == d * p - d;
    MulCancel(p - 1, u + 1, d);
  }

  predicate IsShift(w: nat) {
    w == 1 || w == 2 || w == 4 || w == 8 || w == 16 || w == 32 || w == 64
  }

  lemma {:induction false} SmearFills(v: nat, t: nat, w: nat)
    requires 1 <= w <= 64 && TopOnes(v, t, w) && t < 64
    requires IsShift(w)
    ensures Smear(v, w) == Pow2(t + 1) - 1
    decreases 64 - w
  {
    if w <= 32 {
      SmearStep(v, t, w);
      SmearFills(BitOr(v, ShiftRight(v, w)), t, 2 * w);
    } else if t + 1 == 64 {
      assert Pow2(0) == 1;
    }
  }

  /** Every positive number lies between two neighbouring powers of two. */
  lemma {:induction false} HighestBit(n: nat, bits: nat) returns (t: nat)
    requires 0 < n < Pow2(bits)
    ensures t < bits && Pow2(t) <= n < Pow2(t + 1)
  {
    if n >= Pow2(bits - 1) {
      t := bits - 1;
    } else {
      t := HighestBit(n, bits - 1);
    }
  }

  lemma WordIsPow2()
    ensures Pow2(64) == TWO_64
  {
    assert Pow2(8) == 256 && Pow2(16) == 256 * Pow2(8);
    Pow2Sum(16, 16);
    Pow2Sum(32, 32);
  }

  lemma Wrap(k: nat)
    requires k <= 64
    ensures Pow2(k) % TWO_64 == if k < 64 then Pow2(k) else 0
  {
    WordIsPow2();
    if k < 64 {
      Pow2Monotone(k + 1, 64);
    }
  }

  lemma TopOne(v: nat, t: nat)
    requires Pow2(t) <= v < Pow2(t + 1)
    ensures TopOnes(v, t, 1)
  {
    assert Pow2(t + 1) == 2 * Pow2(t);
  }

  lemma SmearedTo(v: nat) returns (k: nat)
    requires 1 <= v < TWO_64
    ensures 1 <= k <= 64 && Smear(v, 1) == Pow2(k) - 1 && Pow2(k - 1) <= v < Pow2(k)
  {
    var t := TopBit(v);
    SmearedFrom(v, t);
    k := t + 1;
  }

  lemma TopBit(v: nat) returns (t: nat)
    requires 1 <= v < TWO_64
    ensures t < 64 && Pow2(t) <= v < Pow2(t + 1)
  {
    WordIsPow2();
    t := HighestBit(v, 64);
  }

  lemma SmearedFrom(v: nat, t: nat)
    requires t < 64 && Pow2(t) <= v < Pow2(t + 1)
    ensures Smear(v, 1) == Pow2(t + 1) - 1
  {
    TopOne(v, t);
    SmearFills(v, t, 1);
  }

  lemma RoundsTo(n: nat, k: nat)
    requires n > 0 && Smear(n - 1, 1) == Pow2(k) - 1
    ensures NextPow2(n) == Pow2(k) % TWO_64
  {
  }

  lemma {:induction false} SmearOfZero(shift: nat)
    requires shift >= 1
    ensures Smear(0, shift) == 0
    decreases 64 - shift
  {
    if shift <= 32 {
      ShiftSplits(0, shift);
      assert ShiftRight(0, shift) == 0;
      assert BitOr(0, 0) == 0;
      SmearOfZero(2 * shift);
    }
  }

  /** The rounding gives the least power of two that is not below n: the next one down is
      too small. A result of 2^64 is cut off to 0. */
  lemma NextPow2IsLeast(n: nat) returns (k: nat)
    requires n < TWO_64
    ensures k <= 64 && n <= Pow2(k) && (k > 0 ==> Pow2(k - 1) < n)
    ensures NextPow2(n) == if k < 64 then Pow2(k) else 0
  {
    if n <= 1 {
      k := 0;
      SmearOfZero(1);
    } else {
      k := SmearedTo(n - 1);
      RoundsTo(n, k);
      Wrap(k);
    }
  }

  /** A queue has at least 16 slots, room for the depth asked for, and a power of two. */
  lemma CapacityIsPow2(depth: nat)
    requires depth <= Pow2(63)
    ensures IsPow2(Capacity(depth)) && Capacity(depth) >= 16 && Capacity(depth) >= depth
    ensures Capacity(depth) < 2 * (if depth < 16 then 16 else depth)
  {
    var n := if depth < 16 then 16 else depth;
    WordIsPow2();
    assert Pow2(64) == 2 * Pow2(63);
    Pow2Monotone(4, 63);
    assert Pow2(4) == 16;
    var k := NextPow2IsLeast(n);
    if k == 64 {
      assert false;
    }
  }
}
