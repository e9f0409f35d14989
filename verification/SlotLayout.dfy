/** A region of memory cut into `capacity` slots of `itemSize` bytes each, back to back, as
    the ring buffer and the memory pool both use it; and, for the ring, the queue of items
    that a head and a tail index delimit. */
module SlotLayout {
  import opened Bits
  import opened Bytes

  type Item = seq<Byte>

  const MAX_CAPACITY := 1024
  const MAX_ITEM_SIZE := 4096

  datatype Layout = Layout(capacity: nat, itemSize: nat) {
    /** The parameters ring_buffer_create accepts. */
    predicate Valid() {
      1 <= capacity <= MAX_CAPACITY && 1 <= itemSize <= MAX_ITEM_SIZE
    }

    predicate Holds(data: seq<Byte>) {
      |data| == capacity * itemSize
    }

    /** The successor of a slot index, wrapping at the capacity. */
    function Next(i: nat): nat
      requires capacity > 0
    {
      (i + 1) % capacity
    }

    /** The number of items between the indices, as ring_buffer_count computes it. */
    function Count(head: nat, tail: nat): (n: nat)
      requires head < capacity && tail < capacity
      ensures n < capacity
    {
      if head >= tail then head - tail else capacity - tail + head
    }

    predicate IsFull(head: nat, tail: nat)
      requires capacity > 0
    {
      Next(head) == tail
    }

    predicate IsEmpty(head: nat, tail: nat) {
      head == tail
    }

    /** The index of the i-th queued slot. */
    function Position(tail: nat, i: nat): (p: nat)
      requires tail < capacity && i < capacity
      ensures p < capacity
    {
      if tail + i < capacity then tail + i else tail + i - capacity
    }

    lemma SlotInside(i: nat)
      requires i < capacity
      ensures i * itemSize + itemSize <= capacity * itemSize
    {
      assert capacity * itemSize == (i + 1) * itemSize + (capacity - i - 1) * itemSize;
    }

    function Slot(data: seq<Byte>, i: nat): (s: Item)
      requires Holds(data) && i < capacity
      ensures |s| == itemSize
    {
      SlotInside(i);
      data[i * itemSize..i * itemSize + itemSize]
    }

    /** Memory after byte k of slot i is overwritten. */
    function Poke(data: seq<Byte>, i: nat, k: nat, b: Byte): (d: seq<Byte>)
      requires Holds(data) && i < capacity && k < itemSize
      ensures Holds(d)
    {
      SlotInside(i);
      data[i * itemSize + k := b]
    }

    /** The queued items, oldest first, read off the memory. */
    function Queue(data: seq<Byte>, head: nat, tail: nat): (q: seq<Item>)
      requires Holds(data) && head < capacity && tail < capacity
      ensures |q| == Count(head, tail)
    {
      seq(Count(head, tail), i requires 0 <= i < Count(head, tail) => Slot(data, Position(tail, i)))
    }

    lemma NextWraps(i: nat)
      requires i < capacity
      ensures Next(i) == if i + 1 < capacity then i + 1 else 0
    {
      if i + 1 < capacity {
        ModUnique(i + 1, capacity, 0, i + 1);
      } else {
        ModUnique(i + 1, capacity, 1, 0);
      }
    }

    /** Writing a byte of one slot changes that byte and no other slot. */
    lemma PokeIsLocal(data: seq<Byte>, i: nat, k: nat, b: Byte, j: nat)
      requires Holds(data) && i < capacity && k < itemSize && j < capacity
      ensures Slot(Poke(data, i, k, b), j) == if i == j then Slot(data, i)[k := b] else Slot(data, j)
    {
      SlotInside(i);
      SlotInside(j);
      SlotsApart(i, j);
      var p, q := i * itemSize, j * itemSize;
      assert i == j ==> p == q;
      UpdateOutside(data, p, q, k, b);
    }

    lemma SlotsApart(i: nat, j: nat)
      ensures i < j ==> i * itemSize + itemSize <= j * itemSize
      ensures j < i ==> j * itemSize + itemSize <= i * itemSize
    {
      if i < j {
        SlotBefore(i, j);
      } else if j < i {
        SlotBefore(j, i);
      }
    }

    lemma SlotBefore(i: nat, j: nat)
      requires i < j
      ensures i * itemSize + itemSize <= j * itemSize
    {
      MulMonotone(j, i + 1, itemSize);
      assert (i + 1) * itemSize == i * itemSize + itemSize;
    }

    lemma UpdateOutside(data: seq<Byte>, p: nat, q: nat, k: nat, b: Byte)
      requires p + itemSize <= |data| && q + itemSize <= |data| && k < itemSize
      requires p == q || p + itemSize <= q || q + itemSize <= p
      ensures data[p + k := b][q..q + itemSize] ==
              if p == q then data[q..q + itemSize][k := b] else data[q..q + itemSize]
    {
    }

    /** Filling the slot at head without publishing it leaves the queue as it was. */
    lemma PokeKeepsQueue(data: seq<Byte>, head: nat, tail: nat, k: nat, b: Byte)
      requires Holds(data) && head < capacity && tail < capacity && k < itemSize
      ensures Queue(Poke(data, head, k, b), head, tail) == Queue(data, head, tail)
    {
      var d := Poke(data, head, k, b);
      forall i: nat | i < Count(head, tail)
        ensures Queue(d, head, tail)[i] == Queue(data, head, tail)[i]
      {
        PokeIsLocal(data, head, k, b, Position(tail, i));
      }
    }

    /** Publishing the head slot appends its bytes, provided the ring is not full. */
    lemma AdvanceHead(data: seq<Byte>, head: nat, tail: nat)
      requires Holds(data) && head < capacity && tail < capacity
      ensures Next(head) < capacity
      ensures IsFull(head, tail) <==> Count(head, tail) == capacity - 1
      ensures !IsFull(head, tail) ==>
                Queue(data, Next(head), tail) == Queue(data, head, tail) + [Slot(data, head)]
    {
      NextWraps(head);
    }

    /** Releasing the tail slot removes the oldest item, provided there is one. */
    lemma AdvanceTail(data: seq<Byte>, head: nat, tail: nat)
      requires Holds(data) && head < capacity && tail < capacity
      ensures Next(tail) < capacity
      ensures IsEmpty(head, tail) <==> Count(head, tail) == 0
      ensures !IsEmpty(head, tail) ==>
                && Queue(data, head, tail)[0] == Slot(data, tail)
                && Queue(data, head, Next(tail)) == Queue(data, head, tail)[1..]
    {
      NextWraps(tail);
    }
  }
}
