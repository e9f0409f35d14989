/** The trace store: the last 1000 completed traces. */
module TraceStore {
  import Bits
  import Bytes
  import opened CircularBuffer
  import opened Words

  const TRACE_STORE_MAX := 1000

  /** A record: its id and the fields the store only copies. */
  datatype Trace = Trace(traceId: nat, fields: seq<Bytes.Byte>)

  /** Each slot in use holds one of the last traces added. */
  lemma SlotIsKept<T>(slots: seq<T>, head: nat, count: nat, all: seq<T>, i: nat) returns (j: nat)
    requires Holds(slots, head, count, all) && i < count
    ensures |all| - count <= j < |all| && slots[i] == all[j]
  {
    var n := |slots|;
    if |all| < n {
      j := i;
      Bits.ModUnique(i, n, 0, i);
    } else {
      var base := |all| - n;
      var d := if i >= head then i - head else i - head + n;
      j := base + d;
      var q := |all| / n;
      assert |all| == n * q + head;
      if i >= head {
        assert n * (q - 1) == n * q - n;
        Bits.ModUnique(j, n, q - 1, i);
      } else {
        Bits.ModUnique(j, n, q, i);
      }
    }
  }

  /** And each of them is in a slot in use. */
  lemma KeptHasSlot<T>(slots: seq<T>, head: nat, count: nat, all: seq<T>, j: nat)
    requires Holds(slots, head, count, all) && |all| - count <= j < |all|
    ensures j % |slots| < count && slots[j % |slots|] == all[j]
  {
    if |all| < |slots| {
      Bits.ModUnique(j, |slots|, 0, j);
    }
  }

  class Store {
    const traces: array<Trace>
    var head: nat
    var count: nat

    /** The store is the one these traces were added to, in this order. */
    ghost predicate Keeps(added: seq<Trace>)
      reads this, traces
    {
      traces.Length == 1000 && Holds(traces[..], head, count, added)
    }

    /** trace_store_init */
    constructor ()
      ensures Keeps([]) && fresh(traces)
    {
      traces := new Trace[TRACE_STORE_MAX](_ => Trace(0, []));
      head, count := 0, 0;
    }

    /** trace_store_add_trace */
    method AddTrace(trace: Trace, ghost added: seq<Trace>)
      requires Keeps(added)
      modifies this, traces
      ensures Keeps(added + [trace])
    {
      PushKeeps(traces[..], head, count, added, trace);
      traces[head] := trace;
      head := (head + 1) % TRACE_STORE_MAX;
      if count < TRACE_STORE_MAX {
        count := count + 1;
      }
      assert traces[..] == old(traces[..])[old(head) := trace];
    }

    /** The copying loop of trace_store_get_recent. */
    method CopyRecent(out: array<Trace>, n: nat)
      requires traces.Length == TRACE_STORE_MAX && n <= TRACE_STORE_MAX
      requires out != traces && n <= out.Length
      modifies out
      ensures out[..n] == Recent(traces[..], head, n)
    {
      var i := 0;
      while i < n
        invariant i <= n && traces[..] == old(traces[..])
        invariant out[..i] == Recent(traces[..], head, n)[..i]
      {
        var idx := (head + TRACE_STORE_MAX - n + i) % TRACE_STORE_MAX;
        out[i] := traces[idx];
        i := i + 1;
      }
    }

    /** trace_store_get_recent: the last traces added, oldest first. */
    method GetRecent(out: array<Trace>, max: nat, ghost added: seq<Trace>) returns (n: nat)
      requires Keeps(added) && out != traces && max <= out.Length
      modifies out
      ensures n == Min(max, Min(|added|, 1000))
      ensures out[..n] == LastOf(LastOf(added, 1000), max)
    {
      n := if count < max then count else max;
      RecentIsLast(traces[..], head, count, added, max);
      CopyRecent(out, n);
    }

    /** trace_store_find: a trace with this id if and only if one is among the last 1000 added. */
    method Find(id: nat, ghost added: seq<Trace>) returns (found: bool, trace: Trace)
      requires Keeps(added)
      ensures found <==> exists t :: t in LastOf(added, 1000) && t.traceId == id
      ensures found ==> trace in LastOf(added, 1000) && trace.traceId == id
    {
      found, trace := false, Trace(0, []);
      var i := 0;
      while i < count
        invariant i <= count && !found
        invariant forall j :: 0 <= j < i ==> traces[j].traceId != id
      {
        if traces[i].traceId == id {
          ghost var j := SlotIsKept(traces[..], head, count, added, i);
          assert LastOf(added, TRACE_STORE_MAX)[j - (|added| - count)] == added[j];
          return true, traces[i];
        }
        i := i + 1;
      }
      forall t | t in LastOf(added, TRACE_STORE_MAX) ensures t.traceId != id {
        var k :| 0 <= k < count && LastOf(added, TRACE_STORE_MAX)[k] == t;
        KeptHasSlot(traces[..], head, count, added, |added| - count + k);
      }
    }
  }
}
