/** The simple allocator that the bitmap pool stands for: a set of used block numbers,
    always handing out the lowest free one, and the usage counters. */
module PoolModel {

  datatype Pool = Pool(total: nat, used: set<nat>, peak: nat, allocs: nat, frees: nat, fails: nat)

  datatype Op = Alloc | Free(block: nat) | Reset

  function Empty(total: nat): Pool {
    Pool(total, {}, 0, 0, 0, 0)
  }

  ghost predicate IsLowestFree(p: Pool, b: nat) {
    b < p.total && b !in p.used && forall i: nat :: i < b ==> i in p.used
  }

  ghost predicate Exhausted(p: Pool) {
    forall i: nat :: i < p.total ==> i in p.used
  }

  function Max(a: nat, b: nat): nat {
    if a < b then b else a
  }

  /** The first unused number from `from` on; `total` if there is none. */
  function LowestFrom(p: Pool, from: nat): (b: nat)
    requires from <= p.total && forall i: nat :: i < from ==> i in p.used
    ensures b < p.total ==> IsLowestFree(p, b)
    ensures b >= p.total ==> b == p.total && Exhausted(p)
    decreases p.total - from
  {
    if from == p.total || from !in p.used then from else LowestFrom(p, from + 1)
  }

  function Taken(p: Pool, b: nat): Pool {
    p.(used := p.used + {b}, allocs := p.allocs + 1, peak := Max(p.peak, |p.used + {b}|))
  }

  function Step(p: Pool, op: Op): Pool {
    match op
    case Alloc =>
      var b := LowestFrom(p, 0);
      if b < p.total then Taken(p, b) else p.(fails := p.fails + 1)
    case Free(b) =>
      if b in p.used then p.(used := p.used - {b}, frees := p.frees + 1) else p
    case Reset => Empty(p.total)
  }

  /** The pool after the first n operations. */
  function After(p: Pool, ops: seq<Op>, n: nat): Pool
    requires n <= |ops|
  {
    if n == 0 then p else Step(After(p, ops, n - 1), ops[n - 1])
  }

  ghost predicate Consistent(p: Pool) {
    && (forall b :: b in p.used ==> b < p.total)
    && p.allocs == p.frees + |p.used|
    && |p.used| <= p.peak <= p.total
  }

  lemma {:induction false} BoundedSet(s: set<nat>, n: nat)
    requires forall b :: b in s ==> b < n
    ensures |s| <= n
    ensures |s| == n ==> forall b: nat :: b < n ==> b in s
  {
    if n == 0 {
      assert s == {};
    } else {
      var t := s - {n - 1};
      BoundedSet(t, n - 1);
      if n - 1 in s {
        assert s == t + {n - 1};
      } else {
        assert s == t;
      }
    }
  }

  lemma StepKeepsConsistent(p: Pool, op: Op)
    requires Consistent(p)
    ensures Consistent(Step(p, op)) && Step(p, op).total == p.total
  {
    if op == Alloc {
      var b := LowestFrom(p, 0);
      if b < p.total {
        BoundedSet(p.used + {b}, p.total);
      }
    }
  }

  /** Over every run: never more blocks used than there are, and each allocation is either
      still in use or was freed since the last reset. */
  lemma {:induction false} RunsAreConsistent(total: nat, ops: seq<Op>, n: nat)
    requires n <= |ops|
    ensures Consistent(After(Empty(total), ops, n)) && After(Empty(total), ops, n).total == total
  {
    if n > 0 {
      RunsAreConsistent(total, ops, n - 1);
      var p := After(Empty(total), ops, n - 1);
      var q := Step(p, ops[n - 1]);
      StepKeepsConsistent(p, ops[n - 1]);
      assert After(Empty(total), ops, n) == q;
    }
  }

  /** The number of operations up to and including the last reset among the first n. */
  function SinceReset(ops: seq<Op>, n: nat): (k: nat)
    requires n <= |ops|
    ensures k <= n
  {
    if n == 0 || ops[n - 1] == Reset then n else SinceReset(ops, n - 1)
  }

  lemma PeakStep(p: Pool, op: Op)
    requires Consistent(p)
    ensures var q := Step(p, op);
            if op == Reset then q.peak == |q.used| else q.peak == Max(p.peak, |q.used|)
  {
    if op.Free? && op.block in p.used {
      assert |p.used - {op.block}| == |p.used| - 1;
    }
  }

  /** The blocks in use after each number of operations. */
  function Usages(total: nat, ops: seq<Op>): (u: seq<nat>)
    ensures |u| == |ops| + 1
  {
    seq(|ops| + 1, k requires 0 <= k <= |ops| => |After(Empty(total), ops, k).used|)
  }

  function Peaks(total: nat, ops: seq<Op>): (q: seq<nat>)
    ensures |q| == |ops| + 1
  {
    seq(|ops| + 1, k requires 0 <= k <= |ops| => After(Empty(total), ops, k).peak)
  }

  ghost predicate Follows(ops: seq<Op>, u: seq<nat>, q: seq<nat>, k: nat) {
    && k < |ops| && |u| == |q| == |ops| + 1
    && q[k + 1] == if ops[k] == Reset then u[k + 1] else Max(q[k], u[k + 1])
  }

  lemma PeakFollows(total: nat, ops: seq<Op>, k: nat)
    requires k < |ops|
    ensures Follows(ops, Usages(total, ops), Peaks(total, ops), k)
  {
    RunsAreConsistent(total, ops, k);
    PeakStep(After(Empty(total), ops, k), ops[k]);
  }

  lemma {:induction false} GreatestSoFar(ops: seq<Op>, u: seq<nat>, q: seq<nat>, n: nat) returns (m: nat)
    requires n <= |ops| && |u| == |q| == |ops| + 1 && q[0] == u[0]
    requires forall k: nat :: k < |ops| ==> Follows(ops, u, q, k)
    ensures SinceReset(ops, n) <= m <= n && u[m] == q[n]
    ensures forall k :: SinceReset(ops, n) <= k <= n ==> u[k] <= q[n]
  {
    m := n;
    if n > 0 {
      assert Follows(ops, u, q, n - 1);
      if ops[n - 1] != Reset {
        var before := GreatestSoFar(ops, u, q, n - 1);
        if u[n] < q[n] {
          m := before;
        }
      }
    }
  }

  /** The peak counter is the greatest usage since creation or the last reset. */
  lemma PeakIsMaximum(total: nat, ops: seq<Op>, n: nat)
    requires n <= |ops|
    ensures exists m :: SinceReset(ops, n) <= m <= n && Usages(total, ops)[m] == After(Empty(total), ops, n).peak
    ensures forall k :: SinceReset(ops, n) <= k <= n ==> Usages(total, ops)[k] <= After(Empty(total), ops, n).peak
  {
    forall k: nat | k < |ops| ensures Follows(ops, Usages(total, ops), Peaks(total, ops), k) {
      PeakFollows(total, ops, k);
    }
    var m := GreatestSoFar(ops, Usages(total, ops), Peaks(total, ops), n);
    assert Peaks(total, ops)[n] == After(Empty(total), ops, n).peak;
  }

  // ---------------------------------------------------------------- what the counters count

  /** How many of the operations since the last reset, among the first n, were allocations. */
  function Attempts(ops: seq<Op>, n: nat): nat
    requires n <= |ops|
  {
    if n == 0 || ops[n - 1] == Reset then 0
    else Attempts(ops, n - 1) + if ops[n - 1] == Alloc then 1 else 0
  }

  /** How many of those found every block in use. */
  function Refused(total: nat, ops: seq<Op>, n: nat): nat
    requires n <= |ops|
  {
    if n == 0 || ops[n - 1] == Reset then 0
    else Refused(total, ops, n - 1)
         + if ops[n - 1] == Alloc && |After(Empty(total), ops, n - 1).used| == total then 1 else 0
  }

  /** How many operations since the last reset gave back a block in use. */
  function GivenBack(total: nat, ops: seq<Op>, n: nat): nat
    requires n <= |ops|
  {
    if n == 0 || ops[n - 1] == Reset then 0
    else GivenBack(total, ops, n - 1)
         + if ops[n - 1].Free? && ops[n - 1].block in After(Empty(total), ops, n - 1).used then 1 else 0
  }

  /** An allocation fails exactly when all blocks are in use. */
  lemma AllocStep(p: Pool)
    requires Consistent(p)
    ensures var q := Step(p, Alloc);
            if |p.used| == p.total then q == p.(fails := p.fails + 1)
            else q.allocs == p.allocs + 1 && q.fails == p.fails && q.frees == p.frees && |q.used| == |p.used| + 1
  {
    var b := LowestFrom(p, 0);
    BoundedSet(p.used, p.total);
    if b < p.total {
      BoundedSet(p.used + {b}, p.total);
    } else {
      AllUsed(p.used, p.total);
    }
  }

  lemma {:induction false} AllUsed(s: set<nat>, n: nat)
    requires forall b: nat :: b < n <==> b in s
    ensures |s| == n
  {
    if n == 0 {
      assert s == {};
    } else {
      AllUsed(s - {n - 1}, n - 1);
    }
  }

  lemma CounterStep(p: Pool, op: Op, q: Pool)
    requires Consistent(p) && q == Step(p, op)
    ensures op == Reset ==> q.allocs == q.fails == q.frees == 0
    ensures op != Reset ==>
              && q.allocs + q.fails == p.allocs + p.fails + (if op == Alloc then 1 else 0)
              && q.fails == p.fails + (if op == Alloc && |p.used| == p.total then 1 else 0)
              && q.frees == p.frees + (if op.Free? && op.block in p.used then 1 else 0)
  {
    if op == Alloc {
      AllocStep(p);
    }
  }

  lemma NextCounters(total: nat, ops: seq<Op>, n: nat)
    requires 0 < n <= |ops|
    ensures var p, q, op := After(Empty(total), ops, n - 1), After(Empty(total), ops, n), ops[n - 1];
            && (op == Reset ==> q.allocs == q.fails == q.frees == 0)
            && (op != Reset ==>
                  && q.allocs + q.fails == p.allocs + p.fails + (if op == Alloc then 1 else 0)
                  && q.fails == p.fails + (if op == Alloc && |p.used| == total then 1 else 0)
                  && q.frees == p.frees + (if op.Free? && op.block in p.used then 1 else 0))
  {
    RunsAreConsistent(total, ops, n - 1);
    CounterStep(After(Empty(total), ops, n - 1), ops[n - 1], After(Empty(total), ops, n));
  }

  lemma {:induction false} AttemptsAreCounted(total: nat, ops: seq<Op>, n: nat)
    requires n <= |ops|
    ensures After(Empty(total), ops, n).allocs + After(Empty(total), ops, n).fails == Attempts(ops, n)
  {
    if n > 0 {
      AttemptsAreCounted(total, ops, n - 1);
      NextCounters(total, ops, n);
    }
  }

  lemma {:induction false} RefusalsAreCounted(total: nat, ops: seq<Op>, n: nat)
    requires n <= |ops|
    ensures After(Empty(total), ops, n).fails == Refused(total, ops, n)
  {
    if n > 0 {
      RefusalsAreCounted(total, ops, n - 1);
      NextCounters(total, ops, n);
    }
  }

  lemma {:induction false} ReturnsAreCounted(total: nat, ops: seq<Op>, n: nat)
    requires n <= |ops|
    ensures After(Empty(total), ops, n).frees == GivenBack(total, ops, n)
  {
    if n > 0 {
      ReturnsAreCounted(total, ops, n - 1);
      NextCounters(total, ops, n);
    }
  }

  /** Over every run the counters are what their names say, since the last reset: every
      allocation is counted once, as made or as failed, and failed exactly when all blocks
      were in use; and every block given back is counted once. */
  lemma CountersAreExact(total: nat, ops: seq<Op>, n: nat)
    requires n <= |ops|
    ensures var p := After(Empty(total), ops, n);
            p.allocs + p.fails == Attempts(ops, n) && p.fails == Refused(total, ops, n)
            && p.frees == GivenBack(total, ops, n)
  {
    AttemptsAreCounted(total, ops, n);
    RefusalsAreCounted(total, ops, n);
    ReturnsAreCounted(total, ops, n);
  }
}
