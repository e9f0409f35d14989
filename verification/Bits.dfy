/** Powers of two and bitwise conjunction on the natural numbers: what the masked
    probe of the device registry and the masked ticket of the callback queue rest on. */
module Bits {

  function Pow2(k: nat): (p: nat)
    ensures p > 0
  {
    if k == 0 then 1 else 2 * Pow2(k - 1)
  }

  ghost predicate IsPow2(n: nat) {
    exists k: nat :: n == Pow2(k)
  }

  /** Bitwise AND of two unsigned integers of any width. */
  function BitAnd(a: nat, b: nat): nat
    decreases a
  {
    if a == 0 || b == 0 then 0 else (a % 2) * (b % 2) + 2 * BitAnd(a / 2, b / 2)
  }

  /** Masking with 2^k - 1 keeps the remainder modulo 2^k. */
  lemma {:induction false} MaskIsMod(x: nat, k: nat)
    ensures BitAnd(x, Pow2(k) - 1) == x % Pow2(k)
  {
    if k == 0 {
      assert x % 1 == 0 by { ModUnique(x, 1, x, 0); }
    } else if x == 0 {
      ModUnique(0, Pow2(k), 0, 0);
    } else {
      var p := Pow2(k - 1);
      MaskIsMod(x / 2, k - 1);
      BitAndOddMask(x, p);
      HalfMod(x, p);
    }
  }

  /** One step of the mask 2p - 1: the low bit of x, then x / 2 under the mask p - 1. */
  lemma BitAndOddMask(x: nat, p: nat)
    requires x > 0 && p > 0
    ensures BitAnd(x, 2 * p - 1) == x % 2 + 2 * BitAnd(x / 2, p - 1)
  {
    var mask: nat := 2 * p - 1;
    assert mask / 2 == p - 1 && mask % 2 == 1;
  }

  lemma HalfMod(x: nat, p: nat)
    requires p > 0
    ensures x % (2 * p) == x % 2 + 2 * ((x / 2) % p)
  {
    var q, r := (x / 2) / p, (x / 2) % p;
    assert x == 2 * (p * q + r) + x % 2;
    assert x == (2 * p) * q + (2 * r + x % 2) by {
      assert 2 * (p * q) == (2 * p) * q;
    }
    ModUnique(x, 2 * p, q, 2 * r + x % 2);
  }

  lemma MulAtLeast(n: nat, d: int)
    ensures d >= 1 ==> n * d >= n
    ensures d <= -1 ==> n * d <= -(n as int)
  {
    if d >= 1 {
      assert n * d == n + n * (d - 1);
    } else if d <= -1 {
      assert n * d == -(n as int) + n * (d + 1);
    }
  }

  /** Quotient and remainder are unique. */
  lemma ModUnique(x: int, n: nat, q: int, r: nat)
    requires n > 0 && r < n && x == n * q + r
    ensures x % n == r && x / n == q
  {
    var d := x / n - q;
    assert n * d == r - x % n;
    MulAtLeast(n, d);
  }

  /** Two numbers less than n apart have equal remainders only when they are equal. */
  lemma ModApart(i: nat, j: nat, n: nat)
    requires n > 0 && i <= j < i + n && i % n == j % n
    ensures i == j
  {
    var d := j / n - i / n;
    assert n * d == j - i;
    MulAtLeast(n, d);
  }

  lemma ModStep(i: nat, n: nat)
    requires n > 0
    ensures (i + 1) % n == if i % n + 1 < n then i % n + 1 else 0
  {
    var q := i / n;
    if i % n + 1 < n {
      ModUnique(i + 1, n, q, i % n + 1);
    } else {
      MulSucc(n, q);
      ModUnique(i + 1, n, q + 1, 0);
    }
  }

  lemma MulSucc(n: int, q: int)
    ensures n * (q + 1) == n * q + n
  {
  }

  lemma ModAddMultiple(i: nat, n: nat, k: int)
    requires n > 0 && i + n * k >= 0
    ensures (i + n * k) % n == i % n
  {
    assert i + n * k == n * (i / n + k) + i % n by {
      assert n * (i / n + k) == n * (i / n) + n * k;
    }
    ModUnique(i + n * k, n, i / n + k, i % n);
  }

  /** Reducing modulo a multiple of n first does not change the remainder modulo n. */
  lemma AddAfterMod(x: nat, i: nat, n: nat)
    requires n > 0
    ensures (x % n + i) % n == (x + i) % n
  {
    assert x == n * (x / n) + x % n;
    ModAddMultiple(x % n + i, n, x / n);
  }

  /** Adding a number leads back to the same residue exactly when it is a multiple. */
  lemma SameAfterAddingIff(h: nat, d: nat, n: nat)
    requires h < n
    ensures (h + d) % n == h <==> d % n == 0
  {
    var q := d / n;
    assert d == n * q + d % n;
    if d % n == 0 {
      ModUnique(h + d, n, q, h);
    } else if h + d % n < n {
      ModUnique(h + d, n, q, h + d % n);
    } else {
      MulSucc(n, q);
      ModUnique(h + d, n, q + 1, h + d % n - n);
    }
  }

  lemma ModOfMod(x: nat, n: nat, q: nat)
    requires n > 0 && n * q > 0
    ensures x % (n * q) % n == x % n
  {
    var m := n * q;
    var k := q * (x / m);
    assert m * (x / m) == n * k;
    assert x % m == x + n * -k by {
      assert n * -k == -(n * k);
    }
    ModAddMultiple(x, n, -k);
  }

  lemma {:induction false} Pow2Sum(a: nat, b: nat)
    ensures Pow2(a + b) == Pow2(a) * Pow2(b)
  {
    if a > 0 {
      Pow2Sum(a - 1, b);
    }
  }

  lemma {:induction false} Pow2Monotone(a: nat, b: nat)
    requires a <= b
    ensures Pow2(a) <= Pow2(b)
  {
    if a < b {
      Pow2Monotone(a, b - 1);
    }
  }

  /** Bitwise OR of two unsigned integers of any width. */
  function BitOr(a: nat, b: nat): nat
    decreases a
  {
    if a == 0 then b
    else if b == 0 then a
    else (if a % 2 == 1 || b % 2 == 1 then 1 else 0) + 2 * BitOr(a / 2, b / 2)
  }

  lemma {:induction false} OrBounds(a: nat, b: nat, m: nat)
    requires a < Pow2(m) && b < Pow2(m)
    ensures a <= BitOr(a, b) < Pow2(m) && b <= BitOr(a, b)
  {
    if a != 0 && b != 0 {
      OrBounds(a / 2, b / 2, m - 1);
    }
  }

  /** The exclusive or of two numbers, bit by bit. */
  function BitXor(a: nat, b: nat): nat
    decreases a
  {
    if a == 0 then b
    else if b == 0 then a
    else (if a % 2 == b % 2 then 0 else 1) + 2 * BitXor(a / 2, b / 2)
  }

  lemma {:induction false} XorBounds(a: nat, b: nat, m: nat)
    requires a < Pow2(m) && b < Pow2(m)
    ensures BitXor(a, b) < Pow2(m)
  {
    if a != 0 && b != 0 {
      XorBounds(a / 2, b / 2, m - 1);
    }
  }

  lemma {:induction false} XorCancels(a: nat, b: nat)
    ensures BitXor(a, BitXor(a, b)) == b
    decreases a
  {
    if a == 0 {
    } else if b == 0 {
      XorSelf(a);
    } else {
      var c := BitXor(a, b);
      assert c / 2 == BitXor(a / 2, b / 2) && (c % 2 == 0 <==> a % 2 == b % 2);
      XorCancels(a / 2, b / 2);
      XorHalves(a, c);
    }
  }

  lemma XorHalves(a: nat, b: nat)
    ensures BitXor(a, b) == (if a % 2 == b % 2 then 0 else 1) + 2 * BitXor(a / 2, b / 2)
  {
    if b == 0 {
      assert a / 2 == 0 || BitXor(a / 2, 0) == a / 2;
    }
  }

  lemma {:induction false} XorSelf(a: nat)
    ensures BitXor(a, a) == 0
  {
    if a > 0 {
      XorSelf(a / 2);
    }
  }

  lemma MulDouble(x: int, p: int)
    ensures x * (2 * p) == 2 * (x * p)
  {
  }

  /** Bits from position m up do not meet a number below 2^m. */
  lemma {:induction false} OrHigh(x: nat, lo: nat, u: nat, m: nat)
    requires lo < Pow2(m) && u < Pow2(m)
    ensures BitOr(x * Pow2(m) + lo, u) == x * Pow2(m) + BitOr(lo, u)
  {
    if m > 0 && u != 0 {
      var p := Pow2(m - 1);
      var a := x * Pow2(m) + lo;
      MulDouble(x, p);
      assert a / 2 == x * p + lo / 2 && a % 2 == lo % 2;
      OrHigh(x, lo / 2, u / 2, m - 1);
    }
  }

  function ShiftRight(n: nat, w: nat): nat
    decreases w
  {
    if w == 0 then n else ShiftRight(n / 2, w - 1)
  }

  /** Shifting right drops the low w bits. */
  lemma {:induction false} ShiftSplits(n: nat, w: nat)
    ensures ShiftRight(n, w) * Pow2(w) <= n < (ShiftRight(n, w) + 1) * Pow2(w)
  {
    if w > 0 {
      ShiftSplits(n / 2, w - 1);
      var q, p := ShiftRight(n, w), Pow2(w - 1);
      MulDouble(q, p);
      MulDouble(q + 1, p);
    }
  }

  lemma MulMonotone(a: int, b: int, d: nat)
    ensures a >= b ==> a * d >= b * d
  {
    if a >= b {
      assert a * d == b * d + (a - b) * d;
    }
  }

  lemma MulCancel(a: int, b: int, d: nat)
    requires a * d < b * d
    ensures a < b
  {
    MulMonotone(a, b, d);
  }
}
