/** The fixed-size block pool: a bitmap scanned from a hint, in place. */
module MemoryPool {
  import Bits
  import opened Bytes
  import opened SlotLayout
  import opened PoolBitmap
  import opened Words
  import M = PoolModel

  datatype Pointer = Null | At(offset: int)

  datatype FreeOutcome = Freed | NullPointer | OutsideRegion | Misaligned | DoubleFree

  /** Rounds a 64-bit size up to a multiple of 8. */
  function Align8(n: bv64): bv64 {
    (n + 7) & !7
  }

  /** Rounding gives the least multiple of 8 not below n, except that it wraps to 0 within
      7 of the largest size; so creation refuses a size of 0 and just those. */
  lemma Align8Rounds(n: bv64)
    ensures Align8(n) & 7 == 0
    ensures n <= 0xFFFF_FFFF_FFFF_FFF8 ==> n <= Align8(n) && Align8(n) - n < 8
    ensures Align8(n) < 8 <==> n == 0 || n > 0xFFFF_FFFF_FFFF_FFF8
  {
  }

  /** Block b is marked in the bitmap. */
  predicate Marked(bitmap: seq<bv8>, b: nat)
    requires b < 8 * |bitmap|
  {
    Bit(bitmap[b / 8], b % 8)
  }

  ghost function MarkedSet(bitmap: seq<bv8>): (s: set<nat>)
    ensures forall b: nat :: b in s <==> b < 8 * |bitmap| && Marked(bitmap, b)
  {
    set b: nat | b < 8 * |bitmap| && Marked(bitmap, b)
  }

  lemma MarkBit(bitmap: seq<bv8>, i: nat, k: nat, b: nat)
    requires i < |bitmap| && k < 8 && b < 8 * |bitmap|
    ensures Marked(bitmap[i := bitmap[i] | Mask(k)], b) == (b == 8 * i + k || Marked(bitmap, b))
  {
    if b / 8 == i {
      SetBit(bitmap[i], k, b % 8);
    }
  }

  lemma UnmarkBit(bitmap: seq<bv8>, i: nat, k: nat, b: nat)
    requires i < |bitmap| && k < 8 && b < 8 * |bitmap|
    ensures Marked(bitmap[i := bitmap[i] & !Mask(k)], b) == (b != 8 * i + k && Marked(bitmap, b))
  {
    if b / 8 == i {
      ClearBit(bitmap[i], k, b % 8);
    }
  }

  /** Setting bit k of byte i marks block 8i + k and no other. */
  lemma MarkOne(bitmap: seq<bv8>, i: nat, k: nat)
    requires i < |bitmap| && k < 8
    ensures MarkedSet(bitmap[i := bitmap[i] | Mask(k)]) == MarkedSet(bitmap) + {8 * i + k}
  {
    var after := bitmap[i := bitmap[i] | Mask(k)];
    forall b: nat | b < 8 * |bitmap|
      ensures b in MarkedSet(after) <==> b in MarkedSet(bitmap) + {8 * i + k}
    {
      MarkBit(bitmap, i, k, b);
    }
  }

  /** Clearing bit k of byte i frees block 8i + k and no other. */
  lemma UnmarkOne(bitmap: seq<bv8>, i: nat, k: nat)
    requires i < |bitmap| && k < 8
    ensures MarkedSet(bitmap[i := bitmap[i] & !Mask(k)]) == MarkedSet(bitmap) - {8 * i + k}
  {
    var after := bitmap[i := bitmap[i] & !Mask(k)];
    forall b: nat | b < 8 * |bitmap|
      ensures b in MarkedSet(after) <==> b in MarkedSet(bitmap) - {8 * i + k}
    {
      UnmarkBit(bitmap, i, k, b);
    }
  }

  lemma ScanBit(bitmap: seq<bv8>, i: nat, b: nat)
    requires i < |bitmap| && 8 * i <= b < 8 * i + 8
    ensures !bitmap[i] == 0 ==> Marked(bitmap, b)
    ensures !bitmap[i] != 0 ==>
              var low := 8 * i + CountTrailingZeros(!bitmap[i]);
              (b < low ==> Marked(bitmap, b)) && (b == low ==> !Marked(bitmap, b))
  {
    Complement(bitmap[i], b - 8 * i);
    NoneSet(bitmap[i], b - 8 * i);
  }

  /** A byte whose complement is 0 has all its blocks marked; otherwise the lowest bit of
      the complement is the byte's lowest free block. */
  lemma ScanBlocks(bitmap: seq<bv8>, i: nat)
    requires i < |bitmap|
    ensures !bitmap[i] == 0 ==> forall b: nat :: 8 * i <= b < 8 * i + 8 ==> b in MarkedSet(bitmap)
    ensures !bitmap[i] != 0 ==>
              var low := 8 * i + CountTrailingZeros(!bitmap[i]);
              low !in MarkedSet(bitmap) && forall b: nat :: 8 * i <= b < low ==> b in MarkedSet(bitmap)
  {
    forall b: nat | 8 * i <= b < 8 * i + 8
      ensures !bitmap[i] == 0 ==> b in MarkedSet(bitmap)
      ensures !bitmap[i] != 0 ==>
                var low := 8 * i + CountTrailingZeros(!bitmap[i]);
                (b < low ==> b in MarkedSet(bitmap)) && (b == low ==> b !in MarkedSet(bitmap))
    {
      ScanBit(bitmap, i, b);
    }
  }

  lemma TakenStaysConsistent(p: M.Pool, b: nat)
    requires M.Consistent(p) && M.IsLowestFree(p, b)
    ensures M.Consistent(M.Taken(p, b)) && |p.used + {b}| == |p.used| + 1
  {
    M.StepKeepsConsistent(p, M.Alloc);
    LowestIsUnique(p, b);
  }

  /** The blocks below n are all marked. */
  ghost predicate MarkedTo(bitmap: seq<bv8>, n: nat) {
    forall b: nat :: b < n ==> b in MarkedSet(bitmap)
  }

  /** Scanning byte i of a bitmap of `count` blocks finds the lowest free one, or extends
      what is known to be marked. */
  lemma ScanByte(bitmap: seq<bv8>, count: nat, i: nat)
    requires i < |bitmap| && MarkedTo(bitmap, Min(8 * i, count))
    ensures var inverse := !bitmap[i];
            if inverse != 0 && 8 * i + CountTrailingZeros(inverse) < count then
              var low := 8 * i + CountTrailingZeros(inverse);
              low !in MarkedSet(bitmap) && MarkedTo(bitmap, low)
            else MarkedTo(bitmap, Min(8 * i + 8, count))
  {
    ScanBlocks(bitmap, i);
  }

  class Pool {
    const blockSize: nat
    const blockCount: nat
    const region: array<Byte>
    const bitmap: array<bv8>
    var nextFreeHint: nat
    var usedBlocks: nat
    var freeBlocks: nat
    var peakUsed: nat
    var allocCount: nat
    var freeCount: nat
    var failCount: nat

    ghost function Layout(): SlotLayout.Layout {
      SlotLayout.Layout(blockCount, blockSize)
    }

    /** The allocator this pool stands for. */
    ghost function Model(): M.Pool
      reads this, bitmap
    {
      M.Pool(blockCount, MarkedSet(bitmap[..]), peakUsed, allocCount, freeCount, failCount)
    }

    ghost predicate Shaped()
      reads region
    {
      && blockSize >= 8 && blockCount >= 1
      && region as object != bitmap as object
      && Layout().Holds(region[..])
      && bitmap.Length == (blockCount + 7) / 8
    }

    ghost predicate Valid()
      reads this, bitmap, region
    {
      && Shaped()
      && M.Consistent(Model())
      && usedBlocks == |MarkedSet(bitmap[..])| && usedBlocks + freeBlocks == blockCount
      && nextFreeHint < blockCount
      && (forall b: nat :: b < nextFreeHint ==> b in MarkedSet(bitmap[..]))
    }

    /** A pool of `count` blocks of `size` bytes, an aligned size. */
    constructor (size: nat, count: nat)
      requires size >= 8 && count >= 1
      ensures Valid() && fresh(region) && fresh(bitmap)
      ensures blockSize == size && blockCount == count && Model() == M.Empty(count)
    {
      blockSize, blockCount := size, count;
      region := new Byte[count * size](_ => 0);
      bitmap := new bv8[(count + 7) / 8](_ => 0);
      nextFreeHint, usedBlocks, freeBlocks := 0, 0, count;
      peakUsed, allocCount, freeCount, failCount := 0, 0, 0, 0;
      new;
      assert MarkedSet(bitmap[..]) == {};
    }

    /** The inner loop of the scan: the bytes from lo up to hi. */
    method ScanBytes(lo: nat, hi: nat) returns (found: bool, block: nat)
      requires lo <= hi <= bitmap.Length && MarkedTo(bitmap[..], Min(8 * lo, blockCount))
      ensures found ==> block < blockCount && block !in MarkedSet(bitmap[..]) && MarkedTo(bitmap[..], block)
      ensures found ==> 8 * lo <= block < 8 * hi
      ensures !found ==> MarkedTo(bitmap[..], Min(8 * hi, blockCount))
    {
      var i := lo;
      while i < hi
        invariant lo <= i <= hi && MarkedTo(bitmap[..], Min(8 * i, blockCount))
      {
        var inverse := !bitmap[i];
        ScanByte(bitmap[..], blockCount, i);
        if inverse != 0 {
          block := 8 * i + CountTrailingZeros(inverse);
          if block < blockCount {
            return true, block;
          }
        }
        i := i + 1;
      }
      return false, 0;
    }

    /** Finds the lowest free block: one pass from the hint's byte to the end, then one over
        the bytes before it. The second pass never finds anything. */
    method Scan() returns (found: bool, block: nat)
      requires Valid()
      ensures found ==> M.IsLowestFree(Model(), block)
      ensures found ==> nextFreeHint / 8 <= block / 8
      ensures !found ==> M.Exhausted(Model())
    {
      var startByte := nextFreeHint / 8;
      var pass := 0;
      while pass < 2
        invariant 0 <= pass <= 2
        invariant pass > 0 ==> MarkedTo(bitmap[..], blockCount)
      {
        found, block := ScanBytes(if pass == 0 then startByte else 0, if pass == 0 then bitmap.Length else startByte);
        if found {
          assert pass == 0;
          return;
        }
        pass := pass + 1;
      }
      return false, 0;
    }

    /** Hands out the lowest free block, zeroed, or Null exactly when none is free. */
    method Alloc() returns (p: Pointer)
      requires Valid()
      modifies this, bitmap, region
      ensures Valid() && Model() == M.Step(old(Model()), M.Alloc)
      ensures p == Null <==> M.Exhausted(old(Model()))
      ensures p != Null ==>
                exists b: nat ::
                  && p == At(b * blockSize) && M.IsLowestFree(old(Model()), b)
                  && (forall k :: 0 <= k < blockSize ==> Layout().Slot(region[..], b)[k] == 0)
                  && forall o: nat :: o < blockCount && o != b ==>
                       Layout().Slot(region[..], o) == old(Layout().Slot(region[..], o))
      ensures p == Null ==> region[..] == old(region[..])
    {
      var found, b := Scan();
      if !found {
        failCount := failCount + 1;
        return Null;
      }
      LowestIsUnique(Model(), b);
      Take(b);
      ghost var taken := Model();
      Zero(b);
      assert Model() == taken;
      return At(b * blockSize);
    }

    method Mark(b: nat)
      requires b < 8 * bitmap.Length
      modifies bitmap
      ensures MarkedSet(bitmap[..]) == old(MarkedSet(bitmap[..])) + {b}
    {
      var i, k := b / 8, b % 8;
      var byte := bitmap[i] | Mask(k);
      ghost var before := bitmap[..];
      MarkOne(before, i, k);
      assert b == 8 * i + k;
      bitmap[i] := byte;
      assert bitmap[..] == before[i := byte];
    }

    method Unmark(b: nat)
      requires b < 8 * bitmap.Length
      modifies bitmap
      ensures MarkedSet(bitmap[..]) == old(MarkedSet(bitmap[..])) - {b}
    {
      var i, k := b / 8, b % 8;
      var byte := bitmap[i] & !Mask(k);
      ghost var before := bitmap[..];
      UnmarkOne(before, i, k);
      assert b == 8 * i + k;
      bitmap[i] := byte;
      assert bitmap[..] == before[i := byte];
    }

    /** Marks the lowest free block as used and moves the hint past it. */
    method Take(b: nat)
      requires Valid() && M.IsLowestFree(Model(), b)
      modifies this, bitmap
      ensures Valid() && Model() == M.Taken(old(Model()), b)
    {
      ghost var before := Model();
      Mark(b);
      CountTaken(b, before);
    }

    /** The part of it after the bit is set. */
    method CountTaken(b: nat, ghost before: M.Pool)
      requires Shaped() && M.Consistent(before) && M.IsLowestFree(before, b)
      requires Model() == before.(used := before.used + {b})
      requires usedBlocks == |before.used| && usedBlocks + freeBlocks == blockCount
      modifies this
      ensures Valid() && Model() == M.Taken(before, b)
    {
      TakenStaysConsistent(before, b);
      nextFreeHint := b + 1;
      if nextFreeHint >= blockCount {
        nextFreeHint := 0;
      }
      usedBlocks := usedBlocks + 1;
      freeBlocks := freeBlocks - 1;
      allocCount := allocCount + 1;
      if usedBlocks > peakUsed {
        peakUsed := usedBlocks;
      }
      assert Model() == M.Taken(before, b);
    }

    /** Clears every byte of the block. */
    method Zero(b: nat)
      requires Valid() && b < blockCount
      modifies region
      ensures Valid()
      ensures forall k :: 0 <= k < blockSize ==> Layout().Slot(region[..], b)[k] == 0
      ensures forall o: nat :: o < blockCount && o != b ==>
                Layout().Slot(region[..], o) == old(Layout().Slot(region[..], o))
    {
      var k := 0;
      Layout().SlotInside(b);
      while k < blockSize
        invariant 0 <= k <= blockSize && Layout().Holds(region[..])
        invariant forall i :: 0 <= i < k ==> Layout().Slot(region[..], b)[i] == 0
        invariant forall o: nat :: o < blockCount && o != b ==>
                    Layout().Slot(region[..], o) == old(Layout().Slot(region[..], o))
      {
        ghost var before := region[..];
        region[b * blockSize + k] := 0;
        assert region[..] == Layout().Poke(before, b, k, 0);
        forall o: nat | o < blockCount
          ensures Layout().Slot(region[..], o) ==
                  if o == b then Layout().Slot(before, b)[k := 0] else Layout().Slot(before, o)
        {
          Layout().PokeIsLocal(before, b, k, 0, o);
        }
        k := k + 1;
      }
    }

    /** Returns a block. Anything that is not the start of a used block of this pool leaves
        the pool as it was. */
    method Free(p: Pointer) returns (outcome: FreeOutcome)
      requires Valid()
      modifies this, bitmap
      ensures Valid()
      ensures outcome ==
              if p == Null then NullPointer
              else if !(0 <= p.offset < blockCount * blockSize) then OutsideRegion
              else if p.offset % blockSize != 0 then Misaligned
              else if p.offset / blockSize !in old(Model()).used then DoubleFree
              else Freed
      ensures outcome == Freed ==> Model() == M.Step(old(Model()), M.Free(p.offset / blockSize))
      ensures outcome != Freed ==> Model() == old(Model()) && nextFreeHint == old(nextFreeHint)
    {
      if p == Null {
        return NullPointer;
      }
      if p.offset < 0 || p.offset >= blockCount * blockSize {
        return OutsideRegion;
      }
      if p.offset % blockSize != 0 {
        return Misaligned;
      }
      var b := p.offset / blockSize;
      BlockOfOffset(p.offset, blockSize, blockCount);
      var mask := Mask(b % 8);
      TestBit(bitmap[b / 8], b % 8);
      if bitmap[b / 8] & mask == 0 {
        return DoubleFree;
      }
      Release(b);
      return Freed;
    }

    /** Marks a used block as free and moves the hint back to it if it lies before. */
    method Release(b: nat)
      requires Valid() && b in Model().used
      modifies this, bitmap
      ensures Valid() && Model() == M.Step(old(Model()), M.Free(b))
    {
      M.StepKeepsConsistent(Model(), M.Free(b));
      Unmark(b);
      if b < nextFreeHint {
        nextFreeHint := b;
      }
      usedBlocks := usedBlocks - 1;
      freeBlocks := freeBlocks + 1;
      freeCount := freeCount + 1;
    }

    /** Frees everything and clears the counters. */
    method Reset()
      requires Valid()
      modifies this, bitmap
      ensures Valid() && Model() == M.Empty(blockCount)
    {
      forall i | 0 <= i < bitmap.Length {
        bitmap[i] := 0;
      }
      assert MarkedSet(bitmap[..]) == {};
      nextFreeHint, usedBlocks, freeBlocks := 0, 0, blockCount;
      allocCount, freeCount, failCount, peakUsed := 0, 0, 0, 0;
    }
  }

  lemma LowestIsUnique(m: M.Pool, b: nat)
    requires M.IsLowestFree(m, b)
    ensures M.LowestFrom(m, 0) == b
  {
    var l := M.LowestFrom(m, 0);
    assert l < b ==> l in m.used;
    assert b < l ==> l == m.total || b in m.used;
  }

  lemma BlockOfOffset(offset: nat, size: nat, count: nat)
    requires size > 0 && offset < count * size
    ensures offset / size < count
  {
    var q := offset / size;
    assert offset == size * q + offset % size;
    Bits.MulMonotone(q, count, size);
  }

  /** The address of a block identifies it: freeing divides the offset back to the number
      allocation multiplied. */
  lemma FreeFindsBlock(b: nat, size: nat)
    requires size > 0
    ensures b * size % size == 0 && b * size / size == b
  {
    Bits.ModUnique(b * size, size, b, 0);
  }

  /** Two blocks never overlap, and both lie within size times count bytes. */
  lemma BlocksAreDisjoint(a: nat, b: nat, size: nat, count: nat)
    requires size > 0 && a < count && b < count && a != b
    ensures a * size + size <= b * size || b * size + size <= a * size
    ensures a * size + size <= count * size
  {
    var l := SlotLayout.Layout(count, size);
    l.SlotsApart(a, b);
    l.SlotInside(a);
  }

  // ---------------------------------------------------------------- the size of the region

  /** The bytes mapped, and the place of a block, as the code multiplies in 64 bits. */
  function Mapped(size: nat, count: nat): U64 {
    size * count % TWO_64
  }

  function Offset(size: nat, b: nat): U64 {
    b * size % TWO_64
  }

  ghost predicate BlocksFit(size: nat, count: nat) {
    forall b: nat :: b < count ==> Offset(size, b) + size <= Mapped(size, count)
  }

  /** While all blocks fit, none of their places has wrapped. */
  lemma {:induction false} FittingOffset(size: nat, count: nat, b: nat)
    requires 1 <= size && b < count && BlocksFit(size, count)
    ensures Offset(size, b) == b * size && b * size + size < TWO_64
  {
    if b == 0 {
      Bits.ModUnique(0, TWO_64, 0, 0);
    } else {
      FittingOffset(size, count, b - 1);
      assert b * size == (b - 1) * size + size;
      Bits.ModUnique(b * size, TWO_64, 0, b * size);
    }
    assert Offset(size, b) + size <= Mapped(size, count);
  }

  /** Creation accepts every aligned size with every positive count and does not check their
      product: the blocks lie inside the mapped region if and only if it does not wrap. */
  lemma BlocksFitIff(size: nat, count: nat)
    requires 8 <= size < TWO_64 && 1 <= count < TWO_64
    ensures BlocksFit(size, count) <==> size * count < TWO_64
  {
    if BlocksFit(size, count) {
      FittingOffset(size, count, count - 1);
      assert size * count == (count - 1) * size + size;
    }
    if size * count < TWO_64 {
      Bits.ModUnique(size * count, TWO_64, 0, size * count);
      forall b: nat | b < count ensures Offset(size, b) + size <= Mapped(size, count) {
        SlotLayout.Layout(count, size).SlotInside(b);
        assert count * size == size * count;
        Bits.ModUnique(b * size, TWO_64, 0, b * size);
      }
    }
  }

  /** For instance two blocks of 2^63 + 8 bytes, whose size is aligned, in a region of 16. */
  lemma OverflowingPool()
    ensures Align8(0x8000_0000_0000_0008) == 0x8000_0000_0000_0008
    ensures Mapped(0x8000_0000_0000_0008, 2) == 16
    ensures !BlocksFit(0x8000_0000_0000_0008, 2)
  {
    BlocksFitIff(0x8000_0000_0000_0008, 2);
  }
}
