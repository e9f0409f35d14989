/** The registry's hash against FNV-1a as it is published: 32 bits, from offset basis 2166136261,
    each byte exclusive-ored in and the result multiplied by 16777619. */
module DeviceHash {
  import opened Bits
  import opened Devices
  import opened DeviceTable
  import opened Words

  /** x moved up by m bits. */
  function Up(x: nat, m: nat): nat {
    if m == 0 then x else 2 * Up(x, m - 1)
  }

  lemma UpByByte(x: nat)
    ensures Up(x, 8) == 256 * x
  {
    assert Up(x, 1) == 2 * Up(x, 0) && Up(x, 2) == 2 * Up(x, 1) && Up(x, 3) == 2 * Up(x, 2);
    assert Up(x, 4) == 2 * Up(x, 3) && Up(x, 5) == 2 * Up(x, 4) && Up(x, 6) == 2 * Up(x, 5);
    assert Up(x, 7) == 2 * Up(x, 6);
  }

  /** An exclusive or with a number below 2^m leaves the higher bits alone. */
  lemma {:induction false} XorHigh(x: nat, lo: nat, u: nat, m: nat)
    requires lo < Pow2(m) && u < Pow2(m)
    ensures BitXor(Up(x, m) + lo, u) == Up(x, m) + BitXor(lo, u)
  {
    if m > 0 {
      XorHigh(x, lo / 2, u / 2, m - 1);
      SameTail(Up(x, m) + lo, lo, u, Up(x, m - 1));
    }
  }

  lemma SameTail(a: nat, lo: nat, u: nat, high: nat)
    requires a == 2 * high + lo && BitXor(high + lo / 2, u / 2) == high + BitXor(lo / 2, u / 2)
    ensures BitXor(a, u) == 2 * high + BitXor(lo, u)
  {
    XorHalves(a, u);
    XorHalves(lo, u);
    assert a / 2 == high + lo / 2;
  }

  lemma XorByte(h: nat, byte: nat, high: nat)
    requires byte < 256 && high == h / 256 * 256
    ensures BitXor(h, byte) == high + BitXor(h % 256, byte)
  {
    UpByByte(h / 256);
    XorAboveByte(h / 256, h % 256, byte);
  }

  lemma XorAboveByte(x: nat, lo: nat, byte: nat)
    requires lo < 256 && byte < 256
    ensures BitXor(Up(x, 8) + lo, byte) == Up(x, 8) + BitXor(lo, byte)
  {
    ByteIsPow2();
    XorHigh(x, lo, byte, 8);
  }

  lemma ByteIsPow2()
    ensures Pow2(8) == 256
  {
  }

  /** A round is the exclusive or of the whole hash with the byte, times the prime, in 32 bits. */
  lemma RoundIsXorTimesPrime(h: nat, byte: nat)
    requires byte < 256
    ensures Round(h, byte) == BitXor(h, byte) * 16777619 % 0x1_0000_0000
  {
    var high := h / 256 * 256;
    XorByte(h, byte, high);
    RoundIs(h, byte, high, BitXor(h % 256, byte));
  }

  lemma {:induction false} FoldSnoc(name: Name, h: nat, ch: char)
    requires h < TWO_32
    ensures Fold(name + [ch], h) == Round(Fold(name, h), ch as int % 256)
    decreases |name|
  {
    var all := name + [ch];
    if name == [] {
      assert all == [ch] && all[1..] == [];
    } else {
      assert all[1..] == name[1..] + [ch];
      FoldSnoc(name[1..], Round(h, name[0] as int % 256), ch);
    }
  }

  /** The hash of the empty name, and of a name longer by one character: every character takes
      part, in order, by its low byte. */
  lemma HashExtends(name: Name, ch: char)
    ensures Fold([], 2166136261) == 2166136261
    ensures Fold(name + [ch], 2166136261) ==
            BitXor(Fold(name, 2166136261), ch as int % 256) * 16777619 % 0x1_0000_0000
  {
    FoldSnoc(name, 2166136261, ch);
    RoundIsXorTimesPrime(Fold(name, 2166136261), ch as int % 256);
  }

  /** The stored hash is that value, except that the two values that mark free slots give way
      to their neighbours. */
  lemma SentinelsGiveWay(name: Name)
    ensures var f := Fold(name, 2166136261);
            Fnv1a(name) == if f == 0 then 1 else if f == 0xFFFF_FFFF then 0xFFFF_FFFE else f
  {
  }

  lemma XorOfA()
    ensures BitXor(197, 97) == 164
  {
    assert BitXor(12, 6) == 10;
    assert BitXor(49, 24) == 41;
    assert BitXor(98, 48) == 82;
  }

  lemma ProductOfA(h: nat)
    requires h == (2166136064 + 164) * 16777619 % TWO_32
    ensures h == 0xE40C292C
  {
    ModUnique((2166136064 + 164) * 16777619, TWO_32, 8461672, 0xE40C292C);
  }

  /** A published value: the hash of the letter a. */
  lemma HashOfA(name: Name)
    requires |name| == 1 && name[0] == 'a'
    ensures Fnv1a(name) == 0xE40C292C
  {
    XorOfA();
    var h := (2166136064 + 164) * 16777619 % TWO_32;
    ProductOfA(h);
    assert name[0] as int % 256 == 97;
    OneByteFolds(name, 97, 164, h);
    SentinelsGiveWay(name);
  }
}
