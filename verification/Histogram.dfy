/** The histogram's loops, proved against the values it has observed. */
module Histogram {
  import opened HistogramModel

  class Histogram {
    const upperBounds: array<real>
    const counts: array<nat>
    var numBuckets: nat
    var sum: real
    var count: nat
    var lastUpdateMs: nat

    ghost predicate Valid()
      reads this
    {
      && upperBounds.Length == counts.Length == MAX_BUCKETS
      && numBuckets <= MAX_BUCKETS
    }

    ghost function Bounds(): seq<real>
      requires Valid()
      reads this, upperBounds
    {
      upperBounds[..numBuckets]
    }

    /** The histogram is the one kept for these values. */
    ghost predicate Keeps(values: seq<real>)
      requires Valid()
      reads this, upperBounds, counts
    {
      counts[..numBuckets] == Counts(Bounds(), values) && count == |values| && sum == Sum(values)
    }

    /** histogram_init: at most 32 buckets, and nothing observed. */
    constructor (bounds: seq<real>)
      ensures Valid() && fresh(upperBounds) && fresh(counts)
      ensures Bounds() == if |bounds| > 32 then bounds[..32] else bounds
      ensures Keeps([]) && lastUpdateMs == 0
    {
      var n := if |bounds| > MAX_BUCKETS then MAX_BUCKETS else |bounds|;
      upperBounds := new real[MAX_BUCKETS];
      counts := new nat[MAX_BUCKETS];
      numBuckets, sum, count, lastUpdateMs := n, 0.0, 0, 0;
      new;
      var i := 0;
      while i < numBuckets
        invariant i <= numBuckets == n && Valid() && sum == 0.0 && count == 0 && lastUpdateMs == 0
        invariant forall j :: 0 <= j < i ==> upperBounds[j] == bounds[j] && counts[j] == 0
      {
        upperBounds[i] := bounds[i];
        counts[i] := 0;
        i := i + 1;
      }
      assert Bounds() == bounds[..n];
      assert n == |bounds| ==> bounds[..n] == bounds;
    }

    /** histogram_observe: `values` are those observed before. */
    method Observe(value: real, ts: nat, ghost values: seq<real>)
      requires Valid() && Keeps(values)
      modifies this, counts
      ensures Valid() && Bounds() == old(Bounds()) && Keeps(values + [value]) && lastUpdateMs == ts
    {
      sum := sum + value;
      count := count + 1;
      Observing(values, value, 0.0);
      var i := 0;
      while i < numBuckets
        invariant i <= numBuckets == old(numBuckets) && Valid() && Bounds() == old(Bounds())
        invariant sum == Sum(values + [value]) && count == |values| + 1
        invariant forall j :: 0 <= j < i ==> counts[j] == AtMost(values + [value], upperBounds[j])
        invariant forall j :: i <= j < numBuckets ==> counts[j] == AtMost(values, upperBounds[j])
      {
        Observing(values, value, upperBounds[i]);
        if value <= upperBounds[i] {
          counts[i] := counts[i] + 1;
        }
        i := i + 1;
      }
      lastUpdateMs := ts;
    }

    /** The search for the first bucket that counts enough. */
    method Search(target: nat) returns (k: nat)
      requires Valid() && numBuckets > 0
      ensures k == BucketFrom(counts[..numBuckets], target, 0)
    {
      k := 0;
      while k < numBuckets
        invariant k <= numBuckets
        invariant BucketFrom(counts[..numBuckets], target, k) == BucketFrom(counts[..numBuckets], target, 0)
      {
        if counts[k] >= target {
          return;
        }
        k := k + 1;
      }
      k := numBuckets - 1;
    }

    /** histogram_percentile: with no bucket the source reads outside its array. */
    method Percentile(p: real, ghost values: seq<real>) returns (r: real)
      requires Valid() && Keeps(values) && 0.0 <= p
      requires count == 0 || numBuckets > 0
      ensures r == HistogramModel.Percentile(Bounds(), values, p)
    {
      if count == 0 {
        return 0.0;
      }
      var k := Search(Target(p, count));
      r := upperBounds[k];
    }
  }
}
