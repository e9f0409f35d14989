/** A metric's history: pushes accepted at a minimum distance, the last of them kept. */
module MetricsHistory {
  import Bits
  import opened CircularBuffer
  import opened Words

  datatype Sample = Sample(value: real, ts: U64)

  /** What metrics_history_push accepts, after `accepted`: the 64-bit difference to the last
      accepted timestamp must reach the resolution. */
  predicate Accepts(accepted: seq<Sample>, p: Sample, resolution: U32) {
    accepted == [] || Elapsed(p.ts, accepted[|accepted| - 1].ts) >= resolution
  }

  /** A push is accepted when it is the first, when it comes a resolution or more after the
      last accepted one, or when its clock has gone back, unless almost all of the way round. */
  lemma AcceptsIff(accepted: seq<Sample>, p: Sample, resolution: U32)
    ensures Accepts(accepted, p, resolution) <==>
              || accepted == []
              || p.ts - accepted[|accepted| - 1].ts >= resolution
              || resolution - 0x1_0000_0000_0000_0000 <= p.ts - accepted[|accepted| - 1].ts < 0
  {
  }

  function Accepted(accepted: seq<Sample>, pushes: seq<Sample>, resolution: U32): seq<Sample>
    decreases |pushes|
  {
    if pushes == [] then accepted
    else
      var p := pushes[0];
      Accepted(if Accepts(accepted, p, resolution) then accepted + [p] else accepted, pushes[1..], resolution)
  }

  // ---------------------------------------------------------------- spacing

  predicate Clocked(pushes: seq<Sample>) {
    forall i, j :: 0 <= i < j < |pushes| ==> pushes[i].ts <= pushes[j].ts
  }

  predicate NotBefore(samples: seq<Sample>, t: int) {
    forall i :: 0 <= i < |samples| ==> t <= samples[i].ts
  }

  ghost predicate Spaced(accepted: seq<Sample>, resolution: U32) {
    forall i :: 0 <= i < |accepted| - 1 ==> accepted[i].ts + resolution <= accepted[i + 1].ts
  }

  function LastTs(accepted: seq<Sample>): int {
    if accepted == [] then 0 else accepted[|accepted| - 1].ts
  }

  /** Some accepted sample came within the resolution before the pushed one, or is that one. */
  ghost predicate Represented(accepted: seq<Sample>, p: Sample, resolution: U32) {
    p in accepted
    || exists i :: 0 <= i < |accepted| && accepted[i].ts <= p.ts < accepted[i].ts + resolution
  }

  lemma RepresentedStays(accepted: seq<Sample>, more: seq<Sample>, p: Sample, resolution: U32)
    requires Represented(accepted, p, resolution) && accepted <= more
    ensures Represented(more, p, resolution)
  {
    if p !in accepted {
      var i :| 0 <= i < |accepted| && accepted[i].ts <= p.ts < accepted[i].ts + resolution;
      assert more[i] == accepted[i];
    }
  }

  lemma {:induction false} AcceptedExtends(accepted: seq<Sample>, pushes: seq<Sample>, resolution: U32)
    ensures accepted <= Accepted(accepted, pushes, resolution)
    decreases |pushes|
  {
    if pushes != [] {
      var p := pushes[0];
      AcceptedExtends(if Accepts(accepted, p, resolution) then accepted + [p] else accepted, pushes[1..], resolution);
    }
  }

  /** With a clock that does not go back, accepted samples lie at least one resolution apart. */
  lemma {:induction false} RunKeepsSpacing(accepted: seq<Sample>, pushes: seq<Sample>, resolution: U32)
    requires Spaced(accepted, resolution) && Clocked(pushes) && NotBefore(pushes, LastTs(accepted))
    ensures Spaced(Accepted(accepted, pushes, resolution), resolution)
    decreases |pushes|
  {
    if pushes != [] {
      var p := pushes[0];
      var next := if Accepts(accepted, p, resolution) then accepted + [p] else accepted;
      assert Clocked(pushes[1..]) && NotBefore(pushes[1..], LastTs(next));
      RunKeepsSpacing(next, pushes[1..], resolution);
    }
  }

  /** And no push is refused without reason: each is stored, or lies less than one resolution
      after a stored one. */
  lemma {:induction false} RunRepresents(accepted: seq<Sample>, pushes: seq<Sample>, resolution: U32, k: nat)
    requires Clocked(pushes) && NotBefore(pushes, LastTs(accepted)) && k < |pushes|
    ensures Represented(Accepted(accepted, pushes, resolution), pushes[k], resolution)
    decreases |pushes|
  {
    var p := pushes[0];
    var next := if Accepts(accepted, p, resolution) then accepted + [p] else accepted;
    assert Clocked(pushes[1..]) && NotBefore(pushes[1..], LastTs(next));
    if k > 0 {
      RunRepresents(next, pushes[1..], resolution, k - 1);
    } else {
      AcceptedExtends(next, pushes[1..], resolution);
      assert Represented(next, p, resolution) by {
        if next == accepted {
          var i := |accepted| - 1;
          assert Elapsed(p.ts, accepted[i].ts) == p.ts - accepted[i].ts;
        } else {
          assert next[|next| - 1] == p;
        }
      }
      RepresentedStays(next, Accepted(next, pushes[1..], resolution), p, resolution);
    }
  }

  /** Samples i places apart are at least i resolutions apart, so a full buffer spans its
      window but for one resolution. */
  lemma {:induction false} SpanOfWindow(accepted: seq<Sample>, resolution: U32, i: nat, j: nat)
    requires Spaced(accepted, resolution) && i <= j < |accepted|
    ensures accepted[j].ts - accepted[i].ts >= (j - i) * resolution
    decreases j
  {
    if i < j {
      SpanOfWindow(accepted, resolution, i, j - 1);
      assert (j - i) * resolution == (j - 1 - i) * resolution + resolution;
    }
  }

  // ---------------------------------------------------------------- the buffer

  function Values(samples: seq<Sample>): (v: seq<real>)
    ensures |v| == |samples| && forall i :: 0 <= i < |v| ==> v[i] == samples[i].value
  {
    seq(|samples|, i requires 0 <= i < |samples| => samples[i].value)
  }

  function Times(samples: seq<Sample>): (t: seq<U64>)
    ensures |t| == |samples| && forall i :: 0 <= i < |t| ==> t[i] == samples[i].ts
  {
    seq(|samples|, i requires 0 <= i < |samples| => samples[i].ts)
  }

  /** How many slots a window takes: its whole resolutions, and at least one. */
  function CapacityFor(duration: U32, resolution: U32): (c: U32)
    requires resolution > 0
    ensures c > 0
    ensures c * resolution <= duration < (c + 1) * resolution || (c == 1 && duration < resolution)
  {
    QuotientBounds(duration, resolution);
    if duration / resolution == 0 then 1 else duration / resolution
  }

  lemma QuotientBounds(d: U32, r: U32)
    requires r > 0
    ensures 0 <= d / r <= d && (d / r) * r <= d < (d / r + 1) * r
  {
    var q := d / r;
    assert d == r * q + d % r;
    assert (q + 1) * r == q * r + r;
    Bits.MulAtLeast(r, q);
    Bits.MulAtLeast(q, r);
  }

  lemma PushSample(values: seq<real>, times: seq<U64>, head: nat, count: nat, accepted: seq<Sample>, p: Sample)
    requires |values| == |times|
    requires Holds(values, head, count, Values(accepted)) && Holds(times, head, count, Times(accepted))
    ensures var next := if count < |values| then count + 1 else count;
            && Holds(values[head := p.value], (head + 1) % |values|, next, Values(accepted + [p]))
            && Holds(times[head := p.ts], (head + 1) % |times|, next, Times(accepted + [p]))
  {
    PushKeeps(values, head, count, Values(accepted), p.value);
    PushKeeps(times, head, count, Times(accepted), p.ts);
    assert Values(accepted + [p]) == Values(accepted) + [p.value];
    assert Times(accepted + [p]) == Times(accepted) + [p.ts];
  }

  class History {
    const resolutionMs: U32
    const capacity: U32
    const values: array<real>
    const timestampsMs: array<U64>
    var head: U32
    var count: U32
    var lastPushMs: U64

    /** The buffer is that of a history which accepted these samples, in this order. */
    ghost predicate Keeps(accepted: seq<Sample>)
      reads this, values, timestampsMs
    {
      && resolutionMs > 0
      && values.Length == timestampsMs.Length == capacity
      && Holds(values[..], head, count, Values(accepted))
      && Holds(timestampsMs[..], head, count, Times(accepted))
      && (accepted != [] ==> lastPushMs == LastTs(accepted))
    }

    /** metrics_history_create: a resolution of 0 counts as 1, and there is always a slot. */
    constructor (resolution: U32, duration: U32)
      ensures Keeps([]) && fresh(values) && fresh(timestampsMs)
      ensures resolutionMs == if resolution == 0 then 1 else resolution
      ensures capacity == CapacityFor(duration, resolutionMs)
    {
      resolutionMs := if resolution == 0 then 1 else resolution;
      capacity := CapacityFor(duration, if resolution == 0 then 1 else resolution);
      values := new real[CapacityFor(duration, if resolution == 0 then 1 else resolution)](_ => 0.0);
      timestampsMs := new U64[CapacityFor(duration, if resolution == 0 then 1 else resolution)](_ => 0);
      head, count, lastPushMs := 0, 0, 0;
      new;
      Bits.ModUnique(0, capacity, 0, 0);
    }

    /** metrics_history_push */
    method Push(value: real, ts: U64, ghost accepted: seq<Sample>)
      requires Keeps(accepted)
      modifies this, values, timestampsMs
      ensures var p := Sample(value, ts);
              Keeps(if Accepts(accepted, p, resolutionMs) then accepted + [p] else accepted)
    {
      if count > 0 && Elapsed(ts, lastPushMs) < resolutionMs {
        return;
      }
      PushSample(values[..], timestampsMs[..], head, count, accepted, Sample(value, ts));
      values[head] := value;
      timestampsMs[head] := ts;
      head := (head + 1) % capacity;
      if count < capacity {
        count := count + 1;
      }
      lastPushMs := ts;
      assert values[..] == old(values[..])[old(head) := value];
      assert timestampsMs[..] == old(timestampsMs[..])[old(head) := ts];
    }

    /** The copying loop of metrics_history_get_last. */
    method CopyLast(out: array<real>, avail: nat, ts: array?<U64>)
      requires values.Length == timestampsMs.Length == capacity > 0 && avail <= capacity
      requires out != values && avail <= out.Length
      requires ts != null ==> ts != timestampsMs && avail <= ts.Length
      modifies out, ts
      ensures out[..avail] == RecentU32(values[..], head, avail)
      ensures ts != null ==> ts[..avail] == RecentU32(timestampsMs[..], head, avail)
    {
      var start := (head + capacity - avail) % TWO_32 % capacity;
      ghost var recent := RecentU32(values[..], head, avail);
      ghost var recentTs := RecentU32(timestampsMs[..], head, avail);
      var i := 0;
      while i < avail
        invariant i <= avail
        invariant values[..] == old(values[..]) && timestampsMs[..] == old(timestampsMs[..])
        invariant out[..i] == recent[..i]
        invariant ts != null ==> ts[..i] == recentTs[..i]
      {
        var idx := (start + i) % TWO_32 % capacity;
        SlotReads(values[..], head, avail, i, start, idx);
        SlotReads(timestampsMs[..], head, avail, i, start, idx);
        out[i] := values[idx];
        if ts != null {
          ts[i] := timestampsMs[idx];
        }
        i := i + 1;
      }
    }

    /** metrics_history_get_last, into out and, when given, into ts: what the 32-bit indices
        reach, which are the last samples in a buffer of at most 2^31. */
    method GetLast(out: array<real>, n: U32, ts: array?<U64>, ghost accepted: seq<Sample>) returns (avail: nat)
      requires Keeps(accepted)
      requires out != values && n <= out.Length
      requires ts != null ==> ts != timestampsMs && n <= ts.Length
      modifies out, ts
      ensures avail == Min(n, Min(|accepted|, capacity))
      ensures out[..avail] == RecentU32(values[..], head, avail)
      ensures capacity <= TWO_31 ==> out[..avail] == LastOf(LastOf(Values(accepted), capacity), n)
      ensures ts != null ==> ts[..avail] == RecentU32(timestampsMs[..], head, avail)
      ensures ts != null && capacity <= TWO_31 ==> ts[..avail] == LastOf(LastOf(Times(accepted), capacity), n)
    {
      avail := if count < n then count else n;
      if capacity <= TWO_31 {
        RecentU32IsLast(values[..], head, count, Values(accepted), n);
        RecentU32IsLast(timestampsMs[..], head, count, Times(accepted), n);
      }
      CopyLast(out, avail, ts);
    }

    /** metrics_history_last */
    method Last(ghost accepted: seq<Sample>) returns (r: real)
      requires Keeps(accepted)
      ensures r == if accepted == [] then 0.0 else RecentU32(values[..], head, 1)[0]
      ensures accepted != [] && capacity <= TWO_31 ==> r == accepted[|accepted| - 1].value
    {
      if count == 0 {
        return 0.0;
      }
      var idx := (head + capacity - 1) % TWO_32 % capacity;
      NewestSlot(head, capacity, idx);
      if capacity <= TWO_31 {
        NewestU32(values[..], head, count, Values(accepted));
      }
      r := values[idx];
    }
  }
}
