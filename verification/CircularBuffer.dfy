/** A circular buffer as the last entries of everything ever put in it. */
module CircularBuffer {
  import opened Bits
  import opened Words

  /** The slots, the write index and the count are those of a buffer that took `all` in turn. */
  ghost predicate Holds<T>(slots: seq<T>, head: nat, count: nat, all: seq<T>) {
    && slots != []
    && head == |all| % |slots|
    && count == Min(|all|, |slots|)
    && forall j :: |all| - count <= j < |all| ==> slots[j % |slots|] == all[j]
  }

  /** The last n entries, oldest first; all of them when there are fewer. */
  function LastOf<T>(all: seq<T>, n: nat): (r: seq<T>)
    ensures |r| == Min(n, |all|)
  {
    all[|all| - Min(n, |all|)..]
  }

  /** Writing at the head and stepping it round keeps the buffer the last entries, across any
      number of turns. */
  lemma PushKeeps<T>(slots: seq<T>, head: nat, count: nat, all: seq<T>, e: T)
    requires Holds(slots, head, count, all)
    ensures Holds(slots[head := e], (head + 1) % |slots|, if count < |slots| then count + 1 else count, all + [e])
  {
    var n := |slots|;
    var next := if count < n then count + 1 else count;
    ModStep(|all|, n);
    ModStep(head, n);
    assert head % n == head by { ModUnique(head, n, 0, head); }
    forall j | |all| + 1 - next <= j < |all| + 1
      ensures slots[head := e][j % n] == (all + [e])[j]
    {
      if j < |all| && j % n == head {
        ModApart(j, |all|, n);
      }
    }
  }

  /** Counting back from the head reaches the recent entries. */
  lemma SlotOfRecent<T>(slots: seq<T>, head: nat, count: nat, all: seq<T>, avail: nat, i: nat)
    requires Holds(slots, head, count, all) && i < avail <= count
    ensures slots[(head + |slots| - avail + i) % |slots|] == all[|all| - avail + i]
  {
    var n, total := |slots|, |all|;
    var q := total / n;
    assert total == n * q + head;
    assert n * (1 - q) == n - n * q;
    ModAddMultiple(total - avail + i, n, 1 - q);
  }

  lemma KeptAt<T>(all: seq<T>, capacity: nat, n: nat, i: nat)
    requires i < Min(n, Min(|all|, capacity))
    ensures var kept := LastOf(LastOf(all, capacity), n);
            var avail := Min(n, Min(|all|, capacity));
            |kept| == avail && kept[i] == all[|all| - avail + i]
  {
    var last := LastOf(all, capacity);
    assert last[|last| - Min(n, |last|) + i] == all[|all| - Min(n, |last|) + i];
  }

  /** The entries found by counting back `avail` places from the head. */
  function Recent<T>(slots: seq<T>, head: nat, avail: nat): (r: seq<T>)
    requires 0 < |slots| && avail <= |slots|
    ensures |r| == avail
  {
    seq(avail, i requires 0 <= i < avail => slots[(head + |slots| - avail + i) % |slots|])
  }

  /** They are the last n entries kept, oldest first. */
  lemma RecentIsLast<T>(slots: seq<T>, head: nat, count: nat, all: seq<T>, n: nat)
    requires Holds(slots, head, count, all)
    ensures Recent(slots, head, Min(n, count)) == LastOf(LastOf(all, |slots|), n)
  {
    var avail := Min(n, count);
    var a, b := Recent(slots, head, avail), LastOf(LastOf(all, |slots|), n);
    forall i | 0 <= i < avail
      ensures |b| == avail && a[i] == b[i]
    {
      RecentAt(slots, head, count, all, n, i);
    }
    SameItems(a, b);
  }

  lemma RecentAt<T>(slots: seq<T>, head: nat, count: nat, all: seq<T>, n: nat, i: nat)
    requires Holds(slots, head, count, all) && i < Min(n, count)
    ensures |LastOf(LastOf(all, |slots|), n)| == Min(n, count)
    ensures Recent(slots, head, Min(n, count))[i] == LastOf(LastOf(all, |slots|), n)[i]
  {
    SlotOfRecent(slots, head, count, all, Min(n, count), i);
    KeptAt(all, |slots|, n, i);
  }

  // ---------------------------------------------------------------- 32-bit indices

  /** The slot that metrics_history_get_last reads for its i-th result, in 32-bit arithmetic. */
  function SlotU32(head: nat, capacity: nat, avail: nat, i: nat): (slot: nat)
    requires 0 < capacity && avail <= capacity
    ensures slot < capacity
  {
    ((head + capacity - avail) % TWO_32 % capacity + i) % TWO_32 % capacity
  }

  lemma SlotFitsU32(head: nat, capacity: nat, avail: nat, i: nat)
    requires 0 < capacity <= TWO_31 && head < capacity && i < avail <= capacity
    ensures SlotU32(head, capacity, avail, i) == (head + capacity - avail + i) % capacity
  {
    var x := head + capacity - avail;
    ModUnique(x, TWO_32, 0, x);
    var y := x % capacity + i;
    ModUnique(y, TWO_32, 0, y);
    AddAfterMod(x, i, capacity);
  }

  /** What the slots read with 32-bit indices give. */
  function RecentU32<T>(slots: seq<T>, head: nat, avail: nat): (r: seq<T>)
    requires 0 < |slots| && avail <= |slots|
    ensures |r| == avail
  {
    seq(avail, i requires 0 <= i < avail => slots[SlotU32(head, |slots|, avail, i)])
  }

  lemma SlotReads<T>(slots: seq<T>, head: nat, avail: nat, i: nat, start: nat, idx: nat)
    requires 0 < |slots| && i < avail <= |slots|
    requires start == (head + |slots| - avail) % TWO_32 % |slots| && idx == (start + i) % TWO_32 % |slots|
    ensures idx < |slots| && RecentU32(slots, head, avail)[i] == slots[idx]
  {
  }

  lemma SlotFits<T>(slots: seq<T>, head: nat, avail: nat, i: nat)
    requires head < |slots| <= TWO_31 && i < avail <= |slots|
    ensures RecentU32(slots, head, avail)[i] == Recent(slots, head, avail)[i]
  {
    SlotFitsU32(head, |slots|, avail, i);
  }

  lemma SameItems<T>(s: seq<T>, t: seq<T>)
    requires |s| == |t| && forall i :: 0 <= i < |s| ==> s[i] == t[i]
    ensures s == t
  {
  }

  /** In a buffer of at most 2^31 slots they are the recent entries. */
  lemma RecentFitsU32<T>(slots: seq<T>, head: nat, avail: nat)
    requires head < |slots| <= TWO_31 && avail <= |slots|
    ensures RecentU32(slots, head, avail) == Recent(slots, head, avail)
  {
    var a, b := RecentU32(slots, head, avail), Recent(slots, head, avail);
    forall i | 0 <= i < avail
      ensures a[i] == b[i]
    {
      SlotFits(slots, head, avail, i);
    }
    SameItems(a, b);
  }

  lemma RecentU32IsLast<T>(slots: seq<T>, head: nat, count: nat, all: seq<T>, n: nat)
    requires Holds(slots, head, count, all) && |slots| <= TWO_31
    ensures RecentU32(slots, head, Min(n, count)) == LastOf(LastOf(all, |slots|), n)
  {
    RecentFitsU32(slots, head, Min(n, count));
    RecentIsLast(slots, head, count, all, n);
  }

  lemma NewestU32<T>(slots: seq<T>, head: nat, count: nat, all: seq<T>)
    requires Holds(slots, head, count, all) && |slots| <= TWO_31 && all != []
    ensures RecentU32(slots, head, 1)[0] == all[|all| - 1]
  {
    SlotFits(slots, head, 1, 0);
    SlotOfRecent(slots, head, count, all, 1, 0);
  }

  lemma NewestSlot(head: nat, capacity: nat, slot: nat)
    requires 0 < capacity < TWO_32 && slot == (head + capacity - 1) % TWO_32 % capacity
    ensures slot == SlotU32(head, capacity, 1, 0)
  {
    var x := (head + capacity - 1) % TWO_32 % capacity;
    ModUnique(x, TWO_32, 0, x);
    ModUnique(x, capacity, 0, x);
  }

  ghost predicate SlotsRight(capacity: nat)
    requires 0 < capacity
  {
    forall head: nat, avail: nat, i: nat | head < capacity && i < avail <= capacity ::
      SlotU32(head, capacity, avail, i) == (head + capacity - avail + i) % capacity
  }

  /** The 32-bit sum is harmless exactly for capacities up to 2^31: for each larger one there
      is a head from which even the newest entry is looked for in the wrong slot. */
  lemma SlotsRightIff(capacity: nat)
    requires 0 < capacity < TWO_32
    ensures SlotsRight(capacity) <==> capacity <= TWO_31
  {
    if capacity <= TWO_31 {
      forall head: nat, avail: nat, i: nat | head < capacity && i < avail <= capacity
        ensures SlotU32(head, capacity, avail, i) == (head + capacity - avail + i) % capacity
      {
        SlotFitsU32(head, capacity, avail, i);
      }
    } else {
      NewestIsMissed(capacity);
    }
  }

  lemma NewestIsMissed(capacity: nat)
    requires TWO_31 < capacity < TWO_32
    ensures var head := TWO_32 - capacity + 1;
            head < capacity && SlotU32(head, capacity, 1, 0) != (head + capacity - 1 + 0) % capacity
  {
    ModUnique(TWO_32, TWO_32, 1, 0);
    ModUnique(0, capacity, 0, 0);
    ModUnique(0, TWO_32, 0, 0);
    ModUnique(TWO_32, capacity, 1, TWO_32 - capacity);
  }
}
