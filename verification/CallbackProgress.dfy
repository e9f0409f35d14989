/** What the callback dispatcher can always still do, and the two limits of what it promises:
    how many tickets may be outstanding, and how late a callback may be posted. */
module CallbackProgress {
  import opened Bits
  import opened CallbackQueue
  import opened CallbackOverflow

  // ---------------------------------------------------------------- the consumer gets on

  /** The consumer is not about to act on a load of the head that is out of date. */
  predicate Fresh(s: State) {
    s.consumer.HeadLoaded? ==> s.consumer.head == s.head
  }

  /** Nothing is left to do: the consumer has exited, or idles with every ticket run. */
  predicate AtRest(s: State) {
    s.consumer.Exited? || (s.stopper.Live? && s.consumer == Top && s.tail == s.head)
  }

  /** How far the consumer is from its next ticket, or from rest when there is none. */
  function Distance(s: State): nat
    requires s.tail <= s.head
  {
    12 * (s.head - s.tail) +
    match s.consumer
    case Top => 10
    case Stopping => 9
    case HeadLoaded(_) => 8
    case TailLoading => if s.tail == s.head then 13 else 7
    case AtSlot(_) => if s.tail == s.head then 12 else 6
    case Moving(_) => 5
    case Clearing(_, _) => 4
    case Releasing(_, _) => 3
    case Advancing(_) => 2
    case Calling(_) => 11
    case Exited(_) => 0
  }

  /** How many steps the post of the ticket at the tail still has before it, but for its last. */
  function Stage(s: State): nat {
    if s.tail !in s.posts then 0
    else
      match s.posts[s.tail]
      case Waiting(_, _) => 3
      case Storing(_) => 2
      case _ => 1
  }

  /** The consumer waits for a post to fill the slot at the tail. */
  predicate AwaitsPost(bits: nat, s: State)
    requires |s.slots| == Cap(bits)
  {
    s.consumer.AtSlot? && s.tail < s.head && !s.slots[Home(bits, s.tail)].ready
  }

  /** The next step: the consumer's, or that of the post it waits for. */
  function Next(bits: nat, s: State): Action
    requires |s.slots| == Cap(bits)
  {
    if AwaitsPost(bits, s) && s.tail in s.posts then
      match s.posts[s.tail]
      case Waiting(_, _) => Spin(s.tail)
      case Storing(_) => StoreFn(s.tail)
      case _ => Publish(s.tail)
    else Consume
  }

  /** A step that leaves tickets and stop() alone and keeps the head load fresh. */
  ghost predicate Calm(s: State, u: State) {
    u.head == s.head && u.posted == s.posted && u.stopper == s.stopper && (Fresh(s) ==> Fresh(u))
  }

  /** What waits at the tail is either ready or in the hands of its post. */
  lemma TailIsReady(bits: nat, s: State)
    requires Inv(bits, s) && s.consumer.AtSlot?
    ensures s.tail == s.head ==> !s.slots[Home(bits, s.tail)].ready
    ensures s.tail < s.head && !AwaitsPost(bits, s) ==> s.slots[Home(bits, s.tail)].ready
  {
  }

  lemma ConsumerNearer(bits: nat, s: State, u: State)
    requires |s.slots| == Cap(bits) && s.tail <= s.head && |s.posted| == s.head && ConsumerOk(bits, s)
    requires !AtRest(s) && u == ConsumerStep(bits, s)
    requires s.consumer.AtSlot? ==> (s.slots[Home(bits, s.tail)].ready <==> s.tail < s.head)
    ensures u.tail <= u.head && Distance(u) < Distance(s) && Calm(s, u)
    ensures u.consumer.Exited? && Fresh(s) ==> u.tail == u.head
  {
  }

  lemma ConsumerGetsOn(bits: nat, s: State)
    requires Inv(bits, s) && !AtRest(s) && !AwaitsPost(bits, s)
    ensures Enabled(bits, s, Consume) && NotOverflowing(bits, s, Consume)
    ensures var u := Apply(bits, s, Consume);
            && Inv(bits, u) && Calm(s, u) && u.posts == s.posts && Distance(u) < Distance(s)
            && (u.consumer.Exited? && Fresh(s) ==> u.tail == u.head)
  {
    StepKeepsInv(bits, s, Consume);
    if s.consumer.AtSlot? {
      TailIsReady(bits, s);
    }
    ConsumerNearer(bits, s, Apply(bits, s, Consume));
  }

  lemma PostGetsOn(bits: nat, s: State)
    requires Inv(bits, s) && AwaitsPost(bits, s)
    ensures s.tail in s.posts
    ensures var a := Next(bits, s);
            && Enabled(bits, s, a) && NotOverflowing(bits, s, a)
            && var u := Apply(bits, s, a);
               && Inv(bits, u) && Calm(s, u) && u.consumer == s.consumer && u.tail == s.tail
               && (|u.posts| < |s.posts| || (|u.posts| == |s.posts| && Stage(u) < Stage(s)))
  {
    var t := s.tail;
    assert t in s.posts;
    match s.posts[t]
    case Waiting(_, _) => SpinStep(bits, s, t);
    case Storing(_) => StoreStep(bits, s, t);
    case Publishing =>
      PublishStep(bits, s, t);
      assert s.posts.Keys == (s.posts - {t}).Keys + {t};
    case _ =>
  }

  /** A run without overflow. */
  ghost predicate SafeRun(bits: nat, s: State, acts: seq<Action>, u: State) {
    Run(bits, s, acts, u) && NeverOverflows(bits, s, acts)
  }

  lemma SafeCons(bits: nat, s: State, a: Action, acts: seq<Action>, u: State)
    requires Enabled(bits, s, a) && NotOverflowing(bits, s, a) && SafeRun(bits, Apply(bits, s, a), acts, u)
    ensures SafeRun(bits, s, [a] + acts, u)
  {
    assert ([a] + acts)[1..] == acts;
  }

  lemma {:induction false} SafeSnoc(bits: nat, s: State, acts: seq<Action>, u: State, a: Action)
    requires SafeRun(bits, s, acts, u) && Enabled(bits, u, a) && NotOverflowing(bits, u, a)
    ensures SafeRun(bits, s, acts + [a], Apply(bits, u, a))
    decreases |acts|
  {
    if acts == [] {
      assert acts + [a] == [a] + [];
      SafeCons(bits, s, a, [], Apply(bits, s, a));
    } else {
      SafeSnoc(bits, Apply(bits, s, acts[0]), acts[1..], u, a);
      SafeCons(bits, s, acts[0], acts[1..] + [a], Apply(bits, u, a));
      assert acts + [a] == [acts[0]] + (acts[1..] + [a]);
    }
  }

  /** One step towards rest. */
  lemma GetsOn(bits: nat, s: State) returns (a: Action, t: State)
    requires Inv(bits, s) && !AtRest(s)
    ensures Enabled(bits, s, a) && NotOverflowing(bits, s, a) && t == Apply(bits, s, a) && Inv(bits, t) && Calm(s, t)
    ensures t.consumer.Exited? && Fresh(s) ==> t.tail == t.head
    ensures || |t.posts| < |s.posts|
            || (|t.posts| == |s.posts| && Distance(t) < Distance(s))
            || (|t.posts| == |s.posts| && Distance(t) == Distance(s) && Stage(t) < Stage(s))
  {
    if AwaitsPost(bits, s) {
      PostGetsOn(bits, s);
    } else {
      ConsumerGetsOn(bits, s);
    }
    a := Next(bits, s);
    t := Apply(bits, s, a);
  }

  /** Progress: whatever posts are under way, the dispatcher can go on without overflow and
      without another post until it rests; unless its consumer acts on an out-of-date load of
      the head, every ticket claimed has then been consumed. */
  lemma {:induction false} ComesToRest(bits: nat, s: State) returns (acts: seq<Action>, u: State)
    requires Inv(bits, s)
    ensures SafeRun(bits, s, acts, u) && Inv(bits, u) && AtRest(u)
    ensures u.head == s.head && u.posted == s.posted && u.stopper == s.stopper
    ensures AtRest(s) ==> u == s
    ensures Fresh(s) && !s.consumer.Exited? ==> u.tail == u.head
    decreases |s.posts|, Distance(s), Stage(s)
  {
    acts, u := [], s;
    if !AtRest(s) {
      var a, t := GetsOn(bits, s);
      var more;
      more, u := ComesToRest(bits, t);
      SafeCons(bits, s, a, more, u);
      acts := [a] + more;
    }
  }

  /** So from every such state there is a run in which every callback claimed has its turn. */
  lemma EveryTicketCanRun(bits: nat, s: State) returns (acts: seq<Action>, u: State)
    requires Inv(bits, s) && Fresh(s) && !s.consumer.Exited?
    ensures SafeRun(bits, s, acts, u) && u.posted == s.posted && u.ran == Calls(u.posted)
  {
    acts, u := ComesToRest(bits, s);
    AllHaveRun(bits, u);
  }

  lemma AllHaveRun(bits: nat, u: State)
    requires Inv(bits, u) && AtRest(u)
    ensures u.tail == u.head ==> u.ran == Calls(u.posted)
  {
    assert u.posted[..u.head] == u.posted;
  }

  /** So a stop() that is waiting can return, with every callback claimed by then run. */
  lemma StopCanReturn(bits: nat, s: State) returns (acts: seq<Action>, u: State)
    requires Inv(bits, s) && s.stopper.Joining? && Fresh(s) && !s.consumer.Exited?
    ensures SafeRun(bits, s, acts, u) && u.stopper.Stopped? && u.posted == s.posted && u.ran == Calls(u.posted)
  {
    var first, t := ComesToRest(bits, s);
    AllHaveRun(bits, t);
    assert t.stopper.ticket !in t.posts;
    u := Apply(bits, t, StopReturn);
    SafeSnoc(bits, s, first, t, StopReturn);
    acts := first + [StopReturn];
  }

  // ---------------------------------------------------------------- how late a post may be

  /** The ticket of a post is never run in any continuation. */
  ghost predicate Lost(bits: nat, u: State, ticket: nat) {
    ticket < u.head && forall acts, v :: NeverReached(bits, u, acts, v, ticket)
  }

  ghost predicate NeverReached(bits: nat, u: State, acts: seq<Action>, v: State, ticket: nat) {
    Run(bits, u, acts, v) ==> v.tail <= ticket && v.ran == u.ran
  }

  /** From every state in which stop() has cleared the flag, a callback posted now can be
      lost, without any overflow; whereas every callback claimed before the flag was cleared
      runs before stop() returns. */
  lemma LateTicketCanBeLost(bits: nat, s: State, fn: Callback) returns (acts: seq<Action>, u: State)
    requires Inv(bits, s) && !s.stopper.Live?
    ensures SafeRun(bits, s, acts, u) && u.posted == s.posted + [fn] && Lost(bits, u, s.head)
  {
    var first, t := ComesToRest(bits, s);
    u := Apply(bits, t, Claim(fn));
    SafeSnoc(bits, s, first, t, Claim(fn));
    acts := first + [Claim(fn)];
    forall more, v ensures NeverReached(bits, u, more, v, s.head) {
      if Run(bits, u, more, v) {
        NothingRunsAfterExit(bits, u, more, v);
      }
    }
  }

  // ---------------------------------------------------------------- how many tickets may be outstanding

  /** The callbacks run are the first of those posted, in the order of their tickets. */
  ghost predicate InOrder(u: State) {
    u.ran <= Calls(u.posted)
  }

  ghost predicate OrderlyRun(bits: nat, bound: nat, s: State, acts: seq<Action>, u: State) {
    Init(bits, s) && Run(bits, s, acts, u) && ClaimsBelow(bits, s, acts, bound) ==> InOrder(u)
  }

  lemma {:induction false} CallsOfPrefix(fns: seq<Callback>, n: nat)
    requires n <= |fns|
    ensures Calls(fns[..n]) <= Calls(fns)
    decreases |fns|
  {
    if n == |fns| {
      assert fns[..n] == fns;
    } else {
      var front := fns[..|fns| - 1];
      assert front[..n] == fns[..n];
      CallsOfPrefix(front, n);
    }
  }

  lemma {:induction false} BelowIsMonotone(bits: nat, s: State, acts: seq<Action>, low: nat, high: nat)
    requires low <= high && ClaimsBelow(bits, s, acts, low)
    ensures ClaimsBelow(bits, s, acts, high)
    decreases |acts|
  {
    if acts != [] && Enabled(bits, s, acts[0]) {
      BelowIsMonotone(bits, Apply(bits, s, acts[0]), acts[1..], low, high);
    }
  }

  /** No claim finds more tickets than were claimed in all. */
  lemma {:induction false} ClaimsBelowHead(bits: nat, s: State, acts: seq<Action>, u: State, bound: nat)
    requires Run(bits, s, acts, u) && u.head <= bound
    ensures ClaimsBelow(bits, s, acts, bound) && s.head <= u.head
    decreases |acts|
  {
    if acts != [] {
      ClaimsBelowHead(bits, Apply(bits, s, acts[0]), acts[1..], u, bound);
    }
  }

  lemma FewTicketsAreOrderly(bits: nat, bound: nat, s: State, acts: seq<Action>, u: State)
    requires bound <= Cap(bits)
    ensures OrderlyRun(bits, bound, s, acts, u)
  {
    if Init(bits, s) && Run(bits, s, acts, u) && ClaimsBelow(bits, s, acts, bound) {
      BelowIsMonotone(bits, s, acts, bound, Cap(bits));
      InitInv(bits, s);
      FittingClaimsNeverOverflow(bits, s, acts, u);
      DeliversInTicketOrder(bits, s, acts, u);
      CallsOfPrefix(u.posted, Done(u));
    }
  }

  /** The first call of a list is that of its first callback. */
  lemma {:induction false} FirstCall(fns: seq<Callback>)
    requires fns != [] && fns[0] != Nothing
    ensures Calls(fns) != [] && Calls(fns)[0] == fns[0]
    decreases |fns|
  {
    if |fns| > 1 {
      FirstCall(fns[..|fns| - 1]);
    }
  }

  lemma ManyTicketsAreNot(bits: nat, bound: nat) returns (s: State, acts: seq<Action>, u: State)
    requires bound > Cap(bits)
    ensures !OrderlyRun(bits, bound, s, acts, u)
  {
    s := Filled(bits, 0);
    assert Init(bits, s);
    acts, u := OverflowBreaksOrder(bits, s);
    ClaimsBelowHead(bits, s, acts, u, bound);
    FirstCall(u.posted);
    assert u.ran[0] != Calls(u.posted)[0];
  }

  /** The limit is exactly the capacity: all runs whose claims each find fewer than `bound`
      tickets deliver in order if and only if the bound is at most cap. */
  lemma OrderThreshold(bits: nat, bound: nat)
    ensures (forall s, acts, u :: OrderlyRun(bits, bound, s, acts, u)) <==> bound <= Cap(bits)
  {
    if bound <= Cap(bits) {
      forall s, acts, u ensures OrderlyRun(bits, bound, s, acts, u) {
        FewTicketsAreOrderly(bits, bound, s, acts, u);
      }
    } else {
      var s, acts, u := ManyTicketsAreNot(bits, bound);
    }
  }
}
