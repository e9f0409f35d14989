/** What a histogram's cumulative buckets say about the values observed, and what its
    percentiles mean. */
module HistogramModel {
  const MAX_BUCKETS := 32

  /** How many of the values are at most x. */
  function AtMost(values: seq<real>, x: real): (n: nat)
    ensures n <= |values|
  {
    if values == [] then 0 else AtMost(values[1..], x) + if values[0] <= x then 1 else 0
  }

  /** How many of the values are below x. */
  function Below(values: seq<real>, x: real): (n: nat)
    ensures n <= |values|
  {
    if values == [] then 0 else Below(values[1..], x) + if values[0] < x then 1 else 0
  }

  function Sum(values: seq<real>): real {
    if values == [] then 0.0 else values[0] + Sum(values[1..])
  }

  lemma {:induction false} Observing(values: seq<real>, v: real, x: real)
    ensures AtMost(values + [v], x) == AtMost(values, x) + if v <= x then 1 else 0
    ensures Sum(values + [v]) == Sum(values) + v
    decreases |values|
  {
    if values == [] {
      assert [v][1..] == [] && values + [v] == [v];
    } else {
      assert (values + [v])[1..] == values[1..] + [v];
      Observing(values[1..], v, x);
    }
  }

  /** Cumulative counts never fall from one bucket to the next. */
  lemma {:induction false} CumulativeIsMonotone(values: seq<real>, x: real, y: real)
    requires x <= y
    ensures AtMost(values, x) <= AtMost(values, y)
    decreases |values|
  {
    if values != [] {
      CumulativeIsMonotone(values[1..], x, y);
    }
  }

  predicate Sorted(bounds: seq<real>) {
    forall i, j :: 0 <= i < j < |bounds| ==> bounds[i] <= bounds[j]
  }

  /** The first bucket from i on that counts at least `target` values; the last when none does. */
  function BucketFrom(counts: seq<nat>, target: nat, i: nat): (k: nat)
    requires i <= |counts| && counts != []
    ensures k < |counts|
    ensures forall j :: i <= j < k ==> counts[j] < target
    ensures i < |counts| ==> i <= k && (counts[k] >= target || k == |counts| - 1)
    decreases |counts| - i
  {
    if i == |counts| then |counts| - 1
    else if counts[i] >= target then i
    else BucketFrom(counts, target, i + 1)
  }

  function Target(p: real, count: nat): (t: nat)
    requires 0.0 <= p
    ensures IsRankOf(p, count, t)
  {
    (p * count as real).Floor
  }

  /** t is the whole part of p times count: the rank that the fraction p of count values asks for. */
  predicate IsRankOf(p: real, count: nat, t: nat) {
    t as real <= p * count as real < (t + 1) as real
  }

  lemma RankIsTarget(p: real, count: nat, t: nat)
    requires 0.0 <= p && IsRankOf(p, count, t)
    ensures t == Target(p, count)
  {
    var u := Target(p, count);
    assert u as real < (t + 1) as real && t as real < (u + 1) as real;
  }

  /** histogram_percentile on the buckets kept for these values. */
  function Percentile(bounds: seq<real>, values: seq<real>, p: real): real
    requires 0.0 <= p && (values != [] ==> bounds != [])
  {
    if values == [] then 0.0
    else bounds[BucketFrom(Counts(bounds, values), Target(p, |values|), 0)]
  }

  function Counts(bounds: seq<real>, values: seq<real>): (c: seq<nat>)
    ensures |c| == |bounds| && forall i :: 0 <= i < |c| ==> c[i] == AtMost(values, bounds[i])
  {
    seq(|bounds|, i requires 0 <= i < |bounds| => AtMost(values, bounds[i]))
  }

  /** For the rank t that p asks for, the percentile is the least bound that covers t values;
      the last bound when none does. Of nothing it is 0. */
  lemma PercentileIsLeastCover(bounds: seq<real>, values: seq<real>, p: real, t: nat)
    requires 0.0 <= p && (values != [] ==> bounds != []) && Sorted(bounds)
    requires t as real <= p * |values| as real < (t + 1) as real
    ensures var r := Percentile(bounds, values, p);
            && (values == [] ==> r == 0.0)
            && (values != [] ==>
                  && r in bounds
                  && (forall b :: b in bounds && AtMost(values, b) >= t ==> AtMost(values, r) >= t && r <= b)
                  && ((forall b :: b in bounds ==> AtMost(values, b) < t) ==> r == bounds[|bounds| - 1]))
  {
    RankIsTarget(p, |values|, t);
    if values != [] {
      var r := Percentile(bounds, values, p);
      LastUncovered(bounds, values, t, r);
      forall b | b in bounds && AtMost(values, b) >= t ensures AtMost(values, r) >= t && r <= b {
        var j :| 0 <= j < |bounds| && bounds[j] == b;
        BucketCovers(bounds, values, t, j);
      }
    }
  }

  lemma LastUncovered(bounds: seq<real>, values: seq<real>, t: nat, r: real)
    requires bounds != [] && r == bounds[BucketFrom(Counts(bounds, values), t, 0)]
    ensures r in bounds && (AtMost(values, r) >= t || r == bounds[|bounds| - 1])
  {
  }

  lemma BucketCovers(bounds: seq<real>, values: seq<real>, t: nat, j: nat)
    requires j < |bounds| && Sorted(bounds) && AtMost(values, bounds[j]) >= t
    ensures var k := BucketFrom(Counts(bounds, values), t, 0);
            k <= j && bounds[k] <= bounds[j] && AtMost(values, bounds[k]) >= t
  {
    var counts := Counts(bounds, values);
    var k := BucketFrom(counts, t, 0);
    assert counts[j] >= t;
    assert counts[k] >= t || k == |counts| - 1;
  }

  // ---------------------------------------------------------------- against the true order statistic

  /** x is the t-th smallest of the values. */
  predicate IsRanked(values: seq<real>, t: nat, x: real) {
    Below(values, x) < t <= AtMost(values, x)
  }

  lemma {:induction false} BelowMeetsAtMost(values: seq<real>, x: real, y: real)
    requires y < x
    ensures AtMost(values, y) <= Below(values, x)
    decreases |values|
  {
    if values != [] {
      BelowMeetsAtMost(values[1..], x, y);
    }
  }

  /** A bound covers t values if and only if it reaches the t-th smallest. */
  lemma CoversIff(values: seq<real>, t: nat, x: real, b: real)
    requires IsRanked(values, t, x)
    ensures AtMost(values, b) >= t <==> x <= b
  {
    if x <= b {
      CumulativeIsMonotone(values, x, b);
    } else {
      BelowMeetsAtMost(values, x, b);
    }
  }

  /** The percentile is the true one rounded up to a bound: the least bound that reaches the
      value of that rank, when some bound does. */
  lemma PercentileRoundsUp(bounds: seq<real>, values: seq<real>, p: real, t: nat, x: real)
    requires 0.0 <= p && bounds != [] && values != [] && Sorted(bounds)
    requires t as real <= p * |values| as real < (t + 1) as real && IsRanked(values, t, x)
    ensures var r := Percentile(bounds, values, p);
            && r in bounds
            && (x <= r <==> x <= bounds[|bounds| - 1])
            && (forall b :: b in bounds && x <= b ==> r <= b)
            && (bounds[|bounds| - 1] < x ==> r == bounds[|bounds| - 1])
  {
    var last := bounds[|bounds| - 1];
    PercentileIsLeastCover(bounds, values, p, t);
    CoversIff(values, t, x, Percentile(bounds, values, p));
    CoversIff(values, t, x, last);
    assert forall b :: b in bounds ==> b <= last;
    forall b | b in bounds ensures AtMost(values, b) >= t <==> x <= b {
      CoversIff(values, t, x, b);
    }
  }

  /** Every rank from 1 to the number of values is held by some value, so the theorem above
      speaks about every percentile whose rank is not 0. */
  lemma {:induction false} SomeValueIsRanked(values: seq<real>, t: nat) returns (x: real)
    requires 1 <= t <= |values|
    ensures IsRanked(values, t, x)
    decreases |values|
  {
    var v, rest := values[0], values[1..];
    if Below(rest, v) < t <= AtMost(rest, v) + 1 {
      x := v;
    } else if t <= Below(rest, v) {
      x := SomeValueIsRanked(rest, t);
      if v < x {
        assert false by { BelowAntitone(rest, v, x); }
      }
    } else {
      x := SomeValueIsRanked(rest, t - 1);
      if x < v {
        assert false by { CumulativeIsMonotone(rest, x, v); }
      }
    }
  }

  lemma {:induction false} BelowAntitone(values: seq<real>, v: real, x: real)
    requires v <= x
    ensures Below(values, v) <= Below(values, x)
    decreases |values|
  {
    if values != [] {
      BelowAntitone(values[1..], v, x);
    }
  }

  lemma ScaleMonotone(p: real, q: real, n: real)
    requires p <= q && 0.0 <= n
    ensures p * n <= q * n
  {
    assert (q - p) * n >= 0.0;
  }

  lemma FloorMonotone(x: real, y: real)
    requires x <= y
    ensures x.Floor <= y.Floor
  {
    assert x.Floor as real <= x && y < (y.Floor + 1) as real;
    assert x.Floor as real < (y.Floor + 1) as real;
  }

  lemma TargetMonotone(p: real, q: real, n: nat)
    requires 0.0 <= p <= q
    ensures Target(p, n) <= Target(q, n)
  {
    ScaleMonotone(p, q, n as real);
    FloorMonotone(p * n as real, q * n as real);
  }

  /** A higher percentile is never lower. */
  lemma PercentileIsMonotone(bounds: seq<real>, values: seq<real>, p: real, q: real)
    requires 0.0 <= p <= q && (values != [] ==> bounds != []) && Sorted(bounds)
    ensures Percentile(bounds, values, p) <= Percentile(bounds, values, q)
  {
    if values != [] {
      TargetMonotone(p, q, |values|);
      var c := Counts(bounds, values);
      var i := BucketFrom(c, Target(p, |values|), 0);
      var j := BucketFrom(c, Target(q, |values|), 0);
      assert i <= j;
    }
  }

  // ---------------------------------------------------------------- against linear interpolation

  function LowerBound(bounds: seq<real>, k: nat): real
    requires k < |bounds|
  {
    if k == 0 then 0.0 else bounds[k - 1]
  }

  function CountBelow(bounds: seq<real>, values: seq<real>, k: nat): nat
    requires k < |bounds|
  {
    if k == 0 then 0 else AtMost(values, bounds[k - 1])
  }

  /** r is the estimate by linear interpolation of the t-th value, which is in bucket k: as far
      along the bucket as t is along the ranks of its values. The first bucket begins at 0. */
  predicate IsInterpolated(bounds: seq<real>, values: seq<real>, t: nat, k: nat, r: real)
    requires k < |bounds|
  {
    var lower, below := LowerBound(bounds, k), CountBelow(bounds, values, k);
    Proportional(r - lower, bounds[k] - lower, (t - below) as real, (AtMost(values, bounds[k]) - below) as real)
  }

  /** a is to w as b is to n. */
  predicate Proportional(a: real, w: real, b: real, n: real) {
    a * n == w * b
  }

  lemma WholeIsProportionalIff(w: real, b: real, n: real)
    ensures Proportional(w, w, b, n) <==> w == 0.0 || b == n
  {
    assert w * n - w * b == w * (n - b);
  }

  lemma BucketAt(counts: seq<nat>, target: nat, k: nat)
    requires counts != [] && k == BucketFrom(counts, target, 0) && k > 0
    ensures counts[k - 1] < target
  {
  }

  /** The percentile is what linear interpolation would give exactly when its rank is the last
      of its bucket, or the bucket has no width. */
  lemma PercentileIsInterpolatedIff(bounds: seq<real>, values: seq<real>, p: real, t: nat, k: nat)
    requires 0.0 <= p && bounds != [] && values != []
    requires t as real <= p * |values| as real < (t + 1) as real
    requires k == BucketFrom(Counts(bounds, values), t, 0) && 1 <= t <= AtMost(values, bounds[k])
    ensures CountBelow(bounds, values, k) < t
    ensures IsInterpolated(bounds, values, t, k, Percentile(bounds, values, p))
            <==> t == AtMost(values, bounds[k]) || bounds[k] == LowerBound(bounds, k)
  {
    RankIsTarget(p, |values|, t);
    var n, below := AtMost(values, bounds[k]), CountBelow(bounds, values, k);
    if k > 0 {
      BucketAt(Counts(bounds, values), t, k);
    }
    assert Percentile(bounds, values, p) == bounds[k];
    WholeIsProportionalIff(bounds[k] - LowerBound(bounds, k), (t - below) as real, (n - below) as real);
  }

  /** For instance not for the median of 1 and 2 in one bucket up to 10. */
  lemma MedianIsNotInterpolated()
    ensures !IsInterpolated([10.0], [1.0, 2.0], 1, 0, Percentile([10.0], [1.0, 2.0], 0.5))
  {
    var bounds, values := [10.0], [1.0, 2.0];
    assert values[1..] == [2.0] && values[1..][1..] == [];
    assert AtMost(values, 10.0) == 2;
    PercentileIsInterpolatedIff(bounds, values, 0.5, 1, 0);
  }
}
