/** The ring used by one thread at a time: a bounded first-in first-out queue of items. */
module RingBuffer {
  import opened Bytes
  import opened SlotLayout

  datatype Status = RB_SUCCESS | RB_ERROR_FULL | RB_ERROR_EMPTY

  class Ring {
    const layout: Layout
    const data: array<Byte>
    var head: nat
    var tail: nat

    ghost predicate Valid()
      reads this, data
    {
      && layout.Valid() && layout.Holds(data[..])
      && head < layout.capacity && tail < layout.capacity
    }

    ghost function Contents(): seq<Item>
      requires Valid()
      reads this, data
    {
      layout.Queue(data[..], head, tail)
    }

    constructor (capacity: nat, itemSize: nat)
      requires 1 <= capacity <= MAX_CAPACITY && 1 <= itemSize <= MAX_ITEM_SIZE
      ensures Valid() && fresh(data) && layout == Layout(capacity, itemSize)
      ensures Contents() == []
    {
      layout := Layout(capacity, itemSize);
      data := new Byte[capacity * itemSize](_ => 0);
      head, tail := 0, 0;
    }

    /** Copies the item, byte by byte, into the slot at head, which is not queued. */
    method CopyIn(item: Item)
      requires Valid() && |item| == layout.itemSize
      modifies data
      ensures Valid() && Contents() == old(Contents())
      ensures layout.Slot(data[..], head) == item
    {
      var k := 0;
      while k < layout.itemSize
        invariant k <= layout.itemSize
        invariant Valid() && Contents() == old(Contents())
        invariant layout.Slot(data[..], head)[..k] == item[..k]
      {
        ghost var before := layout.Slot(data[..], head);
        PokeHead(k, item[k]);
        assert layout.Slot(data[..], head)[..k] == before[..k];
        k := k + 1;
      }
    }

    method PokeHead(k: nat, b: Byte)
      requires Valid() && k < layout.itemSize
      modifies data
      ensures Valid() && Contents() == old(Contents())
      ensures layout.Slot(data[..], head) == old(layout.Slot(data[..], head))[k := b]
    {
      ghost var before := data[..];
      layout.SlotInside(head);
      data[head * layout.itemSize + k] := b;
      assert data[..] == layout.Poke(before, head, k, b);
      layout.PokeKeepsQueue(before, head, tail, k, b);
      layout.PokeIsLocal(before, head, k, b, head);
    }

    /** Copies the slot at tail out, byte by byte. */
    method CopyOut() returns (item: Item)
      requires Valid()
      ensures item == layout.Slot(data[..], tail)
    {
      layout.SlotInside(tail);
      var start := tail * layout.itemSize;
      item := [];
      while |item| < layout.itemSize
        invariant |item| <= layout.itemSize
        invariant item == data[start..start + |item|]
      {
        item := item + [data[start + |item|]];
      }
    }

    /** Appends the item, unless capacity - 1 items are held already. */
    method Write(item: Item) returns (status: Status)
      requires Valid() && |item| == layout.itemSize
      modifies this`head, data
      ensures Valid()
      ensures status == if |old(Contents())| < layout.capacity - 1 then RB_SUCCESS else RB_ERROR_FULL
      ensures Contents() == if status == RB_SUCCESS then old(Contents()) + [item] else old(Contents())
    {
      layout.AdvanceHead(data[..], head, tail);
      var nextHead := layout.Next(head);
      if nextHead == tail {
        return RB_ERROR_FULL;
      }
      CopyIn(item);
      layout.AdvanceHead(data[..], head, tail);
      head := nextHead;
      return RB_SUCCESS;
    }

    /** Removes and returns the oldest item, if there is one. */
    method Read() returns (status: Status, item: Item)
      requires Valid()
      modifies this`tail
      ensures Valid()
      ensures status == if old(Contents()) == [] then RB_ERROR_EMPTY else RB_SUCCESS
      ensures status == RB_SUCCESS ==> old(Contents()) == [item] + Contents()
      ensures status != RB_SUCCESS ==> Contents() == old(Contents())
    {
      layout.AdvanceTail(data[..], head, tail);
      item := [];
      if tail == head {
        return RB_ERROR_EMPTY, item;
      }
      item := CopyOut();
      tail := layout.Next(tail);
      return RB_SUCCESS, item;
    }

    method Count() returns (n: nat)
      requires Valid()
      ensures n == |Contents()|
    {
      n := if head >= tail then head - tail else layout.capacity - tail + head;
    }

    method IsFull() returns (full: bool)
      requires Valid()
      ensures full <==> |Contents()| == layout.capacity - 1
    {
      layout.AdvanceHead(data[..], head, tail);
      full := layout.Next(head) == tail;
    }

    method IsEmpty() returns (empty: bool)
      requires Valid()
      ensures empty <==> Contents() == []
    {
      layout.AdvanceTail(data[..], head, tail);
      empty := head == tail;
    }
  }
}
