/** What the callback dispatcher does once a post overflows: the newest callback runs first,
    and the consumer then waits for good on a slot that nobody will fill. */
module CallbackOverflow {
  import opened Bits
  import opened CallbackQueue

  /** The consumer waits at a slot that is not ready, and no post in progress will use it. */
  ghost predicate Stuck(bits: nat, s: State) {
    && |s.slots| == Cap(bits)
    && s.tail < s.head && !s.slots[Home(bits, s.tail)].ready
    && (forall t :: t in s.posts ==> t < s.head && Home(bits, t) != Home(bits, s.tail))
    && match s.consumer
       case Top => true
       case Stopping => true
       case HeadLoaded(h) => h > s.tail
       case TailLoading => true
       case AtSlot(t) => t == s.tail
       case _ => false
  }

  /** No claim of the run is for the slot at index home. */
  ghost predicate Avoids(bits: nat, s: State, acts: seq<Action>, home: nat)
    decreases |acts|
  {
    acts != [] && Enabled(bits, s, acts[0]) ==>
      && (acts[0].Claim? || acts[0].StopPost? ==> Home(bits, s.head) != home)
      && Avoids(bits, Apply(bits, s, acts[0]), acts[1..], home)
  }

  /** From a stuck state nothing more runs and the consumer never exits, so stop() never
      returns, until some later ticket comes round to the slot. */
  lemma {:induction false} StuckStays(bits: nat, s: State, acts: seq<Action>, u: State)
    requires Stuck(bits, s) && Run(bits, s, acts, u) && Avoids(bits, s, acts, Home(bits, s.tail))
    ensures Stuck(bits, u) && u.ran == s.ran && u.tail == s.tail && !u.consumer.Exited?
    decreases |acts|
  {
    if acts != [] {
      StuckStays(bits, Apply(bits, s, acts[0]), acts[1..], u);
    }
  }

  lemma {:induction false} Append(bits: nat, s: State, xs: seq<Action>, m: State, ys: seq<Action>, u: State)
    requires Run(bits, s, xs, m) && Run(bits, m, ys, u)
    ensures Run(bits, s, xs + ys, u)
    decreases |xs|
  {
    if xs == [] {
      assert xs + ys == ys;
    } else {
      Append(bits, Apply(bits, s, xs[0]), xs[1..], m, ys, u);
      assert (xs + ys)[1..] == xs[1..] + ys;
    }
  }

  lemma One(bits: nat, s: State, a: Action)
    requires Enabled(bits, s, a)
    ensures Run(bits, s, [a], Apply(bits, s, a))
  {
    assert Run(bits, Apply(bits, s, a), [], Apply(bits, s, a));
  }

  lemma Then(bits: nat, s: State, xs: seq<Action>, m: State, a: Action)
    requires Run(bits, s, xs, m) && Enabled(bits, m, a)
    ensures Run(bits, s, xs + [a], Apply(bits, m, a))
  {
    One(bits, m, a);
    Append(bits, s, xs, m, [a], Apply(bits, m, a));
  }

  /** The state in which n callbacks sit in the first n slots. */
  function Filled(bits: nat, n: nat): State {
    State(seq(Cap(bits), i => if i < n then Slot(Call(i), true) else Slot(Nothing, false)), n, 0,
          map[], Top, Live, seq(n, i => Call(i)), [])
  }

  /** The state after the overflow, when the consumer has taken n slots: the first of them
      held the newest callback. */
  function Drained(bits: nat, n: nat): State {
    State(seq(Cap(bits), i => if i < n then Slot(Nothing, false)
                              else if i == 0 then Slot(Call(Cap(bits)), true)
                              else Slot(Call(i), true)),
          Cap(bits) + 1, n, map[], Top, Live, seq(Cap(bits) + 1, i => Call(i)),
          seq(n, i => if i == 0 then Call(Cap(bits)) else Call(i)))
  }

  lemma HomeOf(bits: nat, t: nat)
    ensures t < Cap(bits) ==> Home(bits, t) == t
    ensures Home(bits, Cap(bits)) == 0
  {
    HomeIsMod(bits, t);
    HomeIsMod(bits, Cap(bits));
    if t < Cap(bits) {
      ModUnique(t, Cap(bits), 0, t);
    }
    ModUnique(Cap(bits), Cap(bits), 1, 0);
  }

  /** A post into a free slot takes four steps. */
  lemma PostOne(bits: nat, s: State, fn: Callback) returns (acts: seq<Action>)
    requires |s.slots| == Cap(bits) && s.posts == map[] && !s.slots[Home(bits, s.head)].ready
    ensures Run(bits, s, acts,
                s.(slots := s.slots[Home(bits, s.head) := Slot(fn, true)],
                   head := s.head + 1, posted := s.posted + [fn]))
  {
    var t := s.head;
    var s1 := Apply(bits, s, Claim(fn));
    var s2 := Apply(bits, s1, Spin(t));
    var s3 := Apply(bits, s2, StoreFn(t));
    var s4 := Apply(bits, s3, Publish(t));
    One(bits, s, Claim(fn));
    Then(bits, s, [Claim(fn)], s1, Spin(t));
    acts := [Claim(fn)] + [Spin(t)];
    Then(bits, s, acts, s2, StoreFn(t));
    acts := acts + [StoreFn(t)];
    Then(bits, s, acts, s3, Publish(t));
    acts := acts + [Publish(t)];
    assert s4.posts == map[];
    assert s4.slots == s.slots[Home(bits, t) := Slot(fn, true)];
  }

  lemma {:induction false} Fill(bits: nat, n: nat) returns (acts: seq<Action>)
    requires n <= Cap(bits)
    ensures Run(bits, Filled(bits, 0), acts, Filled(bits, n))
  {
    acts := [];
    if n > 0 {
      var s := Filled(bits, n - 1);
      var first := Fill(bits, n - 1);
      HomeOf(bits, n - 1);
      var more := PostOne(bits, s, Call(n - 1));
      assert Filled(bits, n).slots == s.slots[n - 1 := Slot(Call(n - 1), true)];
      assert Filled(bits, n).posted == s.posted + [Call(n - 1)];
      Append(bits, Filled(bits, 0), first, s, more, Filled(bits, n));
      acts := first + more;
    }
  }

  lemma {:induction false} SpinOn(bits: nat, s: State, t: nat, fn: Callback, n: nat) returns (acts: seq<Action>)
    requires |s.slots| == Cap(bits) && s.slots[Home(bits, t)].ready
    requires n <= SPIN_LIMIT && t in s.posts && s.posts[t] == Waiting(fn, 0)
    ensures Run(bits, s, acts, s.(posts := s.posts[t := Waiting(fn, n)]))
  {
    acts := [];
    if n == 0 {
      assert s.posts[t := Waiting(fn, 0)] == s.posts;
    } else {
      acts := SpinOn(bits, s, t, fn, n - 1);
      var m := s.(posts := s.posts[t := Waiting(fn, n - 1)]);
      Then(bits, s, acts, m, Spin(t));
      assert m.posts[t := Waiting(fn, n)] == s.posts[t := Waiting(fn, n)];
      acts := acts + [Spin(t)];
    }
  }

  /** One post too many replaces the oldest callback in its slot, ahead of all the others. */
  lemma OverflowOne(bits: nat) returns (acts: seq<Action>)
    ensures Run(bits, Filled(bits, Cap(bits)), acts, Drained(bits, 0))
  {
    var s, t := Filled(bits, Cap(bits)), Cap(bits);
    var fn := Call(t);
    HomeOf(bits, t);
    var s1 := Apply(bits, s, Claim(fn));
    One(bits, s, Claim(fn));
    var spins := SpinOn(bits, s1, t, fn, SPIN_LIMIT);
    var s2 := s1.(posts := s1.posts[t := Waiting(fn, SPIN_LIMIT)]);
    Append(bits, s, [Claim(fn)], s1, spins, s2);
    acts := [Claim(fn)] + spins;
    var rest := GiveUp(bits, s2, t, fn);
    assert s2.posts - {t} == map[];
    assert Drained(bits, 0).slots == s2.slots[0 := Slot(fn, true)];
    assert Drained(bits, 0).posted == s2.posted && Drained(bits, 0).ran == s2.ran;
    Append(bits, s, acts, s2, rest, Drained(bits, 0));
    acts := acts + rest;
  }

  /** The overflow branch: empty the slot, mark it free, and fill it again. */
  lemma GiveUp(bits: nat, s: State, t: nat, fn: Callback) returns (acts: seq<Action>)
    requires |s.slots| == Cap(bits) && s.slots[Home(bits, t)].ready
    requires t in s.posts && s.posts[t] == Waiting(fn, SPIN_LIMIT)
    ensures Run(bits, s, acts, s.(slots := s.slots[Home(bits, t) := Slot(fn, true)], posts := s.posts - {t}))
  {
    var s1 := Apply(bits, s, Spin(t));
    var s2 := Apply(bits, s1, DropFn(t));
    var s3 := Apply(bits, s2, DropReady(t));
    var s4 := Apply(bits, s3, StoreFn(t));
    var s5 := Apply(bits, s4, Publish(t));
    One(bits, s, Spin(t));
    acts := [Spin(t)];
    Then(bits, s, acts, s1, DropFn(t));
    acts := acts + [DropFn(t)];
    Then(bits, s, acts, s2, DropReady(t));
    acts := acts + [DropReady(t)];
    Then(bits, s, acts, s3, StoreFn(t));
    acts := acts + [StoreFn(t)];
    Then(bits, s, acts, s4, Publish(t));
    acts := acts + [Publish(t)];
    assert s5.posts == s.posts - {t};
    assert s5.slots == s.slots[Home(bits, t) := Slot(fn, true)];
  }

  /** One step of a consumer that has not exited. */
  ghost predicate Consumes(bits: nat, s: State, u: State) {
    |s.slots| == Cap(bits) && !s.consumer.Exited? && u == ConsumerStep(bits, s)
  }

  lemma FourSteps(bits: nat, s: State, s1: State, s2: State, s3: State, u: State)
    requires Consumes(bits, s, s1) && Consumes(bits, s1, s2) && Consumes(bits, s2, s3) && Consumes(bits, s3, u)
    ensures Run(bits, s, [Consume] + [Consume] + [Consume] + [Consume], u)
  {
    One(bits, s, Consume);
    Then(bits, s, [Consume], s1, Consume);
    Then(bits, s, [Consume] + [Consume], s2, Consume);
    Then(bits, s, [Consume] + [Consume] + [Consume], s3, Consume);
  }

  /** The consumer takes one callback out of its slot and runs it in eight steps. */
  lemma TakeOne(bits: nat, s: State, fn: Callback) returns (acts: seq<Action>)
    requires |s.slots| == Cap(bits) && s.slots[Home(bits, s.tail)] == Slot(fn, true) && fn != Nothing
    requires s.consumer == Top && s.stopper == Live
    ensures Run(bits, s, acts,
                s.(slots := s.slots[Home(bits, s.tail) := Slot(Nothing, false)],
                   tail := s.tail + 1, ran := s.ran + [fn]))
  {
    var four := [Consume] + [Consume] + [Consume] + [Consume];
    var m := s.(consumer := Clearing(s.tail, fn));
    var u := s.(slots := s.slots[Home(bits, s.tail) := Slot(Nothing, false)], tail := s.tail + 1, ran := s.ran + [fn]);
    assert s.slots[Home(bits, s.tail) := Slot(Nothing, true)][Home(bits, s.tail) := Slot(Nothing, false)]
           == s.slots[Home(bits, s.tail) := Slot(Nothing, false)];
    FourSteps(bits, s, s.(consumer := TailLoading), s.(consumer := AtSlot(s.tail)), s.(consumer := Moving(s.tail)), m);
    TakeRest(bits, m, u);
    acts := four + four;
    Append(bits, s, four, m, four, u);
  }

  lemma TakeRest(bits: nat, m: State, u: State)
    requires |m.slots| == Cap(bits) && m.consumer.Clearing? && m.consumer.t == m.tail && m.consumer.fn != Nothing
    requires u == m.(slots := m.slots[Home(bits, m.tail) := Slot(Nothing, m.slots[Home(bits, m.tail)].ready)]
                             [Home(bits, m.tail) := Slot(Nothing, false)],
                     tail := m.tail + 1, ran := m.ran + [m.consumer.fn], consumer := Top)
    ensures Run(bits, m, [Consume] + [Consume] + [Consume] + [Consume], u)
  {
    var m1 := ConsumerStep(bits, m);
    var m2 := ConsumerStep(bits, m1);
    var m3 := ConsumerStep(bits, m2);
    FourSteps(bits, m, m1, m2, m3, u);
  }

  lemma {:induction false} Drain(bits: nat, n: nat) returns (acts: seq<Action>)
    requires n <= Cap(bits)
    ensures Run(bits, Drained(bits, 0), acts, Drained(bits, n))
  {
    acts := [];
    if n > 0 {
      var s, t := Drained(bits, n - 1), Drained(bits, n);
      var fn := if n == 1 then Call(Cap(bits)) else Call(n - 1);
      var first := Drain(bits, n - 1);
      HomeOf(bits, n - 1);
      var more := TakeOne(bits, s, fn);
      assert t.slots == s.slots[n - 1 := Slot(Nothing, false)];
      assert t.ran == s.ran + [fn];
      Append(bits, Drained(bits, 0), first, s, more, t);
      acts := first + more;
    }
  }

  /** cap + 1 posts ahead of the consumer overflow the queue: the newest callback is the
      first to run, the oldest never runs, and the dispatcher ends up stuck. */
  lemma OverflowBreaksOrder(bits: nat, s: State) returns (acts: seq<Action>, u: State)
    requires Init(bits, s)
    ensures Run(bits, s, acts, u) && Stuck(bits, u)
    ensures u.posted == seq(Cap(bits) + 1, i => Call(i))
    ensures |u.ran| == Cap(bits) && u.ran[0] == u.posted[Cap(bits)] && u.posted[0] !in u.ran
    ensures u.head == Cap(bits) + 1
  {
    assert s == Filled(bits, 0);
    var cap := Cap(bits);
    var fill := Fill(bits, cap);
    var over := OverflowOne(bits);
    var drain := Drain(bits, cap);
    u := Drained(bits, cap);
    Append(bits, s, fill, Filled(bits, cap), over, Drained(bits, 0));
    Append(bits, s, fill + over, Drained(bits, 0), drain, u);
    acts := fill + over + drain;
    HomeOf(bits, cap);
  }

  /** Without any overflow, a callback posted while stop() is under way can be lost: the
      consumer may leave between the clearing of the flag and the claim. */
  lemma LatePostIsLost(bits: nat, s: State, fn: Callback) returns (acts: seq<Action>, u: State)
    requires Init(bits, s)
    ensures Run(bits, s, acts, u) && NeverOverflows(bits, s, acts)
    ensures u.posted == [fn] && u.ran == [] && u.consumer == Exited(0)
  {
    var s1 := Apply(bits, s, StopClear);
    var s2 := Apply(bits, s1, Consume);
    var s3 := Apply(bits, s2, Consume);
    var s4 := Apply(bits, s3, Consume);
    u := Apply(bits, s4, Claim(fn));
    acts := [StopClear, Consume, Consume, Consume, Claim(fn)];
    assert acts[1..][1..][1..][1..] == [Claim(fn)];
    One(bits, s4, Claim(fn));
    assert Run(bits, s3, acts[3..], u) && NeverOverflows(bits, s3, acts[3..]);
    assert Run(bits, s2, acts[2..], u) && NeverOverflows(bits, s2, acts[2..]);
    assert Run(bits, s1, acts[1..], u) && NeverOverflows(bits, s1, acts[1..]);
  }

  /** A post that gives up leaves the slot without callback and not ready before it stores its
      own, so that the consumer, should it look at the slot then, goes back to waiting: the
      callback that was there is dropped. */
  lemma DropEmptiesSlot(bits: nat, s: State, t: nat, x: nat)
    requires |s.slots| == Cap(bits) && t in s.posts && s.posts[t].Dropping?
    requires Home(bits, x) == Home(bits, t)
    ensures Enabled(bits, s, DropFn(t)) && Enabled(bits, Apply(bits, s, DropFn(t)), DropReady(t))
    ensures var u := Apply(bits, Apply(bits, s, DropFn(t)), DropReady(t));
            && u.slots == s.slots[Home(bits, t) := Slot(Nothing, false)]
            && u.posts == s.posts[t := Storing(s.posts[t].fn)]
            && ConsumerStep(bits, u.(consumer := AtSlot(x))).consumer == Top
  {
    var i := Home(bits, t);
    var u := Apply(bits, s, DropFn(t));
    assert s.posts[t := Emptied(s.posts[t].fn)][t := Storing(s.posts[t].fn)] == s.posts[t := Storing(s.posts[t].fn)];
    assert u.slots[i := u.slots[i].(ready := false)] == s.slots[i := Slot(Nothing, false)];
  }

  // ---------------------------------------------------------------- how long a post waits

  /** How often ticket t's post has tested its slot. */
  function Tests(acts: seq<Action>, t: nat): nat
    decreases |acts|
  {
    if acts == [] then 0 else Tests(acts[1..], t) + if acts[0] == Spin(t) then 1 else 0
  }

  /** Where ticket t stands after n tests of its slot: not claimed before the first; waiting
      after up to 64; and at the 65th it gives up. */
  predicate Tested(s: State, t: nat, n: nat) {
    && (t >= s.head ==> n == 0 && t !in s.posts)
    && (t in s.posts ==>
          match s.posts[t]
          case Waiting(_, _) => n <= 64 && s.posts[t].spins == n
          case Dropping(_) => n == 65
          case Emptied(_) => n == 65
          case _ => true)
  }

  lemma TestedStep(bits: nat, s: State, a: Action, t: nat, n: nat)
    requires Enabled(bits, s, a) && Tested(s, t, n)
    ensures Tested(Apply(bits, s, a), t, n + if a == Spin(t) then 1 else 0)
  {
    if a == Consume {
      assert Apply(bits, s, a).posts == s.posts && Apply(bits, s, a).head == s.head;
    }
  }

  lemma {:induction false} TestedAlong(bits: nat, s: State, acts: seq<Action>, u: State, t: nat, n: nat)
    requires Run(bits, s, acts, u) && Tested(s, t, n)
    ensures Tested(u, t, n + Tests(acts, t))
    decreases |acts|
  {
    if acts != [] {
      TestedStep(bits, s, acts[0], t, n);
      TestedAlong(bits, Apply(bits, s, acts[0]), acts[1..], u, t, n + if acts[0] == Spin(t) then 1 else 0);
    }
  }

  /** Over every run, with overflow or without: a post that still waits has tested its slot as
      often as it counted, 64 times at most, and one that empties the slot has tested it
      exactly 65 times. */
  lemma GivesUpAtTest65(bits: nat, s: State, acts: seq<Action>, u: State, t: nat)
    requires Init(bits, s) && Run(bits, s, acts, u)
    ensures Tested(u, t, Tests(acts, t))
  {
    TestedAlong(bits, s, acts, u, t, 0);
  }

  // ---------------------------------------------------------------- what slots keep

  ghost predicate IsPublishing(bits: nat, s: State, i: nat) {
    exists t :: t in s.posts && Home(bits, t) == i && s.posts[t].Publishing?
  }

  /** A slot holds a callback only while it is ready or about to be; so no slot keeps a
      callback that was run. */
  ghost predicate Clean(bits: nat, s: State) {
    && |s.slots| == Cap(bits)
    && (forall i :: 0 <= i < Cap(bits) && s.slots[i].fn != Nothing ==> s.slots[i].ready || IsPublishing(bits, s, i))
    && (s.consumer.Releasing? ==> s.slots[Home(bits, s.consumer.t)].fn == Nothing)
  }

  lemma StepKeepsClean(bits: nat, s: State, a: Action)
    requires Inv(bits, s) && Clean(bits, s) && Enabled(bits, s, a) && NotOverflowing(bits, s, a)
    ensures Clean(bits, Apply(bits, s, a))
  {
    var u := Apply(bits, s, a);
    forall i | 0 <= i < Cap(bits) && u.slots[i].fn != Nothing ensures u.slots[i].ready || IsPublishing(bits, u, i) {
      if a.StoreFn? && Home(bits, a.t) == i {
        assert u.posts[a.t].Publishing?;
      } else if IsPublishing(bits, s, i) {
        var t :| t in s.posts && Home(bits, t) == i && s.posts[t].Publishing?;
        assert a != Publish(t) ==> t in u.posts && u.posts[t].Publishing?;
      }
    }
    if u.consumer.Releasing? && a != Consume {
      StoresElsewhere(bits, s, a);
    }
  }

  /** No post stores into the slot that the consumer is releasing. */
  lemma StoresElsewhere(bits: nat, s: State, a: Action)
    requires Inv(bits, s) && Enabled(bits, s, a) && s.consumer.Releasing? && a != Consume
    ensures Apply(bits, s, a).slots[Home(bits, s.consumer.t)].fn == s.slots[Home(bits, s.consumer.t)].fn
  {
  }

  /** Over every run without overflow. */
  lemma {:induction false} RunKeepsClean(bits: nat, s: State, acts: seq<Action>, u: State)
    requires Inv(bits, s) && Clean(bits, s) && Run(bits, s, acts, u) && NeverOverflows(bits, s, acts)
    ensures Clean(bits, u)
    decreases |acts|
  {
    if acts != [] {
      StepKeepsInv(bits, s, acts[0]);
      StepKeepsClean(bits, s, acts[0]);
      RunKeepsClean(bits, Apply(bits, s, acts[0]), acts[1..], u);
    }
  }

  lemma SlotsKeepNothingRun(bits: nat, s: State, acts: seq<Action>, u: State)
    requires Init(bits, s) && Run(bits, s, acts, u) && NeverOverflows(bits, s, acts)
    ensures Clean(bits, u)
  {
    InitInv(bits, s);
    RunKeepsClean(bits, s, acts, u);
  }
}
