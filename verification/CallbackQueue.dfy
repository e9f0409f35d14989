/** The callback dispatcher: any number of producers claim tickets and fill the slots of a
    power-of-two ring, one consumer runs the callbacks, and stop() drains it. Every atomic
    operation and every access to a slot is a step of its own. */
module CallbackQueue {
  import opened Bits

  /** A std::function: possibly empty. */
  datatype Callback = Nothing | Call(id: int)

  datatype Slot = Slot(fn: Callback, ready: bool)

  const SPIN_LIMIT := 64

  /** Where a post() stands, after its ticket was claimed. */
  datatype Post =
    | Waiting(fn: Callback, spins: nat)  // about to test whether the slot is ready
    | Dropping(fn: Callback)             // spun too long: about to empty the occupied slot
    | Emptied(fn: Callback)              // about to mark it not ready
    | Storing(fn: Callback)              // about to store the callback
    | Publishing                         // about to mark the slot ready

  datatype Consumer =
    | Top | Stopping | HeadLoaded(head: nat)
    | TailLoading | AtSlot(t: nat) | Moving(t: nat)
    | Clearing(t: nat, fn: Callback) | Releasing(t: nat, fn: Callback)
    | Advancing(fn: Callback) | Calling(fn: Callback)
    | Exited(head: nat)

  /** The one effective call of stop(); `before` is the number of tickets claimed by the
      time it cleared the running flag, `ticket` that of its own no-op post. */
  datatype Stopper = Live | Cleared(before: nat) | Joining(before: nat, ticket: nat) | Stopped(before: nat)

  /** `posts` holds the calls in progress by ticket. `posted` lists the callbacks by ticket
      and `ran` those that were called, in order; neither influences a step. */
  datatype State = State(
    slots: seq<Slot>, head: nat, tail: nat,
    posts: map<nat, Post>, consumer: Consumer, stopper: Stopper,
    posted: seq<Callback>, ran: seq<Callback>)

  datatype Action =
    | Claim(fn: Callback) | Spin(t: nat) | DropFn(t: nat) | DropReady(t: nat) | StoreFn(t: nat) | Publish(t: nat)
    | Consume
    | StopClear | StopPost | StopReturn

  const NO_OP := Call(0)

  /** The slot of a ticket: the ticket masked with cap - 1. */
  function Home(bits: nat, t: nat): (i: nat)
    ensures i < Cap(bits)
  {
    MaskIsMod(t, bits);
    BitAnd(t, Cap(bits) - 1)
  }

  lemma HomeIsMod(bits: nat, t: nat)
    ensures Home(bits, t) == t % Cap(bits)
  {
    MaskIsMod(t, bits);
  }

  function Cap(bits: nat): (c: nat)
    ensures c > 0
  {
    Pow2(bits)
  }

  ghost predicate Enabled(bits: nat, s: State, a: Action) {
    && |s.slots| == Cap(bits)
    && match a
       case Claim(_) => true
       case Spin(t) => t in s.posts && s.posts[t].Waiting?
       case DropFn(t) => t in s.posts && s.posts[t].Dropping?
       case DropReady(t) => t in s.posts && s.posts[t].Emptied?
       case StoreFn(t) => t in s.posts && s.posts[t].Storing?
       case Publish(t) => t in s.posts && s.posts[t].Publishing?
       case Consume => !s.consumer.Exited?
       case StopClear => s.stopper.Live?
       case StopPost => s.stopper.Cleared?
       case StopReturn => s.stopper.Joining? && s.stopper.ticket !in s.posts && s.consumer.Exited?
  }

  function Claimed(s: State, fn: Callback): State {
    s.(head := s.head + 1, posts := s.posts[s.head := Waiting(fn, 0)], posted := s.posted + [fn])
  }

  ghost function Apply(bits: nat, s: State, a: Action): State
    requires Enabled(bits, s, a)
  {
    match a
    case Claim(fn) => Claimed(s, fn)
    case Spin(t) =>
      var p := s.posts[t];
      var next := if !s.slots[Home(bits, t)].ready then Storing(p.fn)
                  else if p.spins + 1 > SPIN_LIMIT then Dropping(p.fn)
                  else Waiting(p.fn, p.spins + 1);
      s.(posts := s.posts[t := next])
    case DropFn(t) =>
      s.(slots := s.slots[Home(bits, t) := s.slots[Home(bits, t)].(fn := Nothing)],
         posts := s.posts[t := Emptied(s.posts[t].fn)])
    case DropReady(t) =>
      s.(slots := s.slots[Home(bits, t) := s.slots[Home(bits, t)].(ready := false)],
         posts := s.posts[t := Storing(s.posts[t].fn)])
    case StoreFn(t) =>
      s.(slots := s.slots[Home(bits, t) := s.slots[Home(bits, t)].(fn := s.posts[t].fn)],
         posts := s.posts[t := Publishing])
    case Publish(t) =>
      s.(slots := s.slots[Home(bits, t) := s.slots[Home(bits, t)].(ready := true)],
         posts := s.posts - {t})
    case Consume => ConsumerStep(bits, s)
    case StopClear => s.(stopper := Cleared(s.head))
    case StopPost => Claimed(s, NO_OP).(stopper := Joining(s.stopper.before, s.head))
    case StopReturn => s.(stopper := Stopped(s.stopper.before))
  }

  function ConsumerStep(bits: nat, s: State): State
    requires |s.slots| == Cap(bits)
  {
    match s.consumer
    case Top => s.(consumer := if s.stopper.Live? then TailLoading else Stopping)
    case Stopping => s.(consumer := HeadLoaded(s.head))
    case HeadLoaded(h) => s.(consumer := if h > s.tail then TailLoading else Exited(h))
    case TailLoading => s.(consumer := AtSlot(s.tail))
    case AtSlot(t) => s.(consumer := if s.slots[Home(bits, t)].ready then Moving(t) else Top)
    case Moving(t) => s.(consumer := Clearing(t, s.slots[Home(bits, t)].fn))
    case Clearing(t, fn) =>
      s.(slots := s.slots[Home(bits, t) := s.slots[Home(bits, t)].(fn := Nothing)], consumer := Releasing(t, fn))
    case Releasing(t, fn) =>
      s.(slots := s.slots[Home(bits, t) := s.slots[Home(bits, t)].(ready := false)], consumer := Advancing(fn))
    case Advancing(fn) => s.(tail := s.tail + 1, consumer := Calling(fn))
    case Calling(fn) => s.(ran := if fn == Nothing then s.ran else s.ran + [fn], consumer := Top)
    case Exited(h) => s
  }

  ghost predicate Init(bits: nat, s: State) {
    && s.slots == seq(Cap(bits), _ => Slot(Nothing, false))
    && s.head == 0 && s.tail == 0 && s.posts == map[] && s.consumer == Top && s.stopper == Live
    && s.posted == [] && s.ran == []
  }

  // ------------------------------------------------------------ the invariant

  /** The first ticket that may still need its slot. */
  function Base(s: State): nat {
    s.tail + if s.consumer.Advancing? then 1 else 0
  }

  /** How many tickets are done with, callback and all. */
  function Done(s: State): nat {
    if s.consumer.Calling? && s.tail > 0 then s.tail - 1 else s.tail
  }

  function Calls(fns: seq<Callback>): seq<Callback> {
    if fns == [] then []
    else Calls(fns[..|fns| - 1]) + if fns[|fns| - 1] == Nothing then [] else [fns[|fns| - 1]]
  }

  /** A post leaves its waiting loop only when fewer than cap tickets lie between the first
      one still needing its slot and its own. */
  ghost predicate NotOverflowing(bits: nat, s: State, a: Action)
    requires Enabled(bits, s, a)
  {
    a.Spin? && !Apply(bits, s, a).posts[a.t].Waiting? ==> a.t < Base(s) + Cap(bits)
  }

  ghost predicate PostsOk(bits: nat, s: State)
    requires |s.slots| == Cap(bits) && |s.posted| == s.head
  {
    forall t :: t in s.posts ==>
      && Base(s) <= t < s.head
      && match s.posts[t]
         case Waiting(fn, _) => fn == s.posted[t]
         case Storing(fn) => fn == s.posted[t] && t < Base(s) + Cap(bits) && !s.slots[Home(bits, t)].ready
         case Publishing =>
           t < Base(s) + Cap(bits) && !s.slots[Home(bits, t)].ready && s.slots[Home(bits, t)].fn == s.posted[t]
         case _ => false
  }

  /** The consumer has begun to take ticket t out of its slot. */
  predicate Taking(s: State, t: nat) {
    (s.consumer.Clearing? || s.consumer.Releasing?) && s.consumer.t == t
  }

  /** A ready slot belongs to one claimed ticket, whose post is over, and holds its callback. */
  ghost predicate SlotsOk(bits: nat, s: State)
    requires |s.slots| == Cap(bits) && |s.posted| == s.head
  {
    forall t {:trigger Home(bits, t)} :: Base(s) <= t < Base(s) + Cap(bits) && s.slots[Home(bits, t)].ready ==>
      t < s.head && t !in s.posts && (Taking(s, t) || s.slots[Home(bits, t)].fn == s.posted[t])
  }

  /** Every ticket not yet consumed is in a slot or in the hands of its post. */
  ghost predicate NoneLost(bits: nat, s: State)
    requires |s.slots| == Cap(bits)
  {
    forall t :: Base(s) <= t < s.head ==>
      t in s.posts || (t < Base(s) + Cap(bits) && s.slots[Home(bits, t)].ready)
  }

  ghost predicate ConsumerOk(bits: nat, s: State)
    requires |s.slots| == Cap(bits) && |s.posted| == s.head
  {
    match s.consumer
    case Top => true
    case Stopping => !s.stopper.Live?
    case HeadLoaded(h) => !s.stopper.Live? && s.tail <= h <= s.head && s.stopper.before <= h
    case TailLoading => true
    case AtSlot(t) => t == s.tail
    case Moving(t) => t == s.tail && s.slots[Home(bits, t)].ready
    case Clearing(t, fn) => t == s.tail < s.head && s.slots[Home(bits, t)].ready && fn == s.posted[t]
    case Releasing(t, fn) => t == s.tail < s.head && s.slots[Home(bits, t)].ready && fn == s.posted[t]
    case Advancing(fn) => s.tail < s.head && fn == s.posted[s.tail]
    case Calling(fn) => 0 < s.tail <= s.head && fn == s.posted[s.tail - 1]
    case Exited(h) => !s.stopper.Live? && s.tail == h && s.stopper.before <= h
  }

  ghost predicate Inv(bits: nat, s: State) {
    && |s.slots| == Cap(bits) && |s.posted| == s.head && Base(s) <= s.head
    && PostsOk(bits, s) && SlotsOk(bits, s) && NoneLost(bits, s) && ConsumerOk(bits, s)
    && s.ran == Calls(s.posted[..Done(s)])
    && (!s.stopper.Live? ==> s.stopper.before <= s.head)
    && (s.stopper.Stopped? ==> s.consumer.Exited?)
  }

  lemma HomesDiffer(bits: nat, i: nat, j: nat)
    requires i < j < i + Cap(bits)
    ensures Home(bits, i) != Home(bits, j)
  {
    HomeIsMod(bits, i);
    HomeIsMod(bits, j);
    if Home(bits, i) == Home(bits, j) {
      ModApart(i, j, Cap(bits));
    }
  }

  /** Within one window of cap tickets no two share a slot. */
  lemma WindowIsInjective(bits: nat, base: nat)
    ensures forall i, j :: base <= i < base + Cap(bits) && base <= j < base + Cap(bits) && i != j ==>
              Home(bits, i) != Home(bits, j)
  {
    forall i, j | base <= i < base + Cap(bits) && base <= j < base + Cap(bits) && i != j
      ensures Home(bits, i) != Home(bits, j)
    {
      if i < j { HomesDiffer(bits, i, j); } else { HomesDiffer(bits, j, i); }
    }
  }

  lemma ClaimPosts(bits: nat, s: State, fn: Callback)
    requires Inv(bits, s)
    ensures PostsOk(bits, Claimed(s, fn)) && ConsumerOk(bits, Claimed(s, fn))
  {
  }

  lemma ClaimSlots(bits: nat, s: State, fn: Callback)
    requires Inv(bits, s)
    ensures SlotsOk(bits, Claimed(s, fn)) && NoneLost(bits, Claimed(s, fn))
  {
  }

  lemma ClaimStep(bits: nat, s: State, fn: Callback)
    requires Inv(bits, s)
    ensures Inv(bits, Claimed(s, fn))
  {
    ClaimPosts(bits, s, fn);
    ClaimSlots(bits, s, fn);
    assert Claimed(s, fn).posted[..Done(s)] == s.posted[..Done(s)];
  }

  lemma SpinStep(bits: nat, s: State, t: nat)
    requires Inv(bits, s) && Enabled(bits, s, Spin(t)) && NotOverflowing(bits, s, Spin(t))
    ensures Inv(bits, Apply(bits, s, Spin(t)))
  {
  }

  lemma StorePosts(bits: nat, s: State, t: nat)
    requires Inv(bits, s) && Enabled(bits, s, StoreFn(t))
    ensures PostsOk(bits, Apply(bits, s, StoreFn(t))) && ConsumerOk(bits, Apply(bits, s, StoreFn(t)))
  {
    WindowIsInjective(bits, Base(s));
  }

  lemma StoreSlots(bits: nat, s: State, t: nat)
    requires Inv(bits, s) && Enabled(bits, s, StoreFn(t))
    ensures SlotsOk(bits, Apply(bits, s, StoreFn(t))) && NoneLost(bits, Apply(bits, s, StoreFn(t)))
  {
    WindowIsInjective(bits, Base(s));
  }

  lemma StoreStep(bits: nat, s: State, t: nat)
    requires Inv(bits, s) && Enabled(bits, s, StoreFn(t))
    ensures Inv(bits, Apply(bits, s, StoreFn(t)))
  {
    StorePosts(bits, s, t);
    StoreSlots(bits, s, t);
  }

  lemma PublishPosts(bits: nat, s: State, t: nat)
    requires Inv(bits, s) && Enabled(bits, s, Publish(t))
    ensures PostsOk(bits, Apply(bits, s, Publish(t))) && ConsumerOk(bits, Apply(bits, s, Publish(t)))
  {
    WindowIsInjective(bits, Base(s));
  }

  lemma PublishSlots(bits: nat, s: State, t: nat)
    requires Inv(bits, s) && Enabled(bits, s, Publish(t))
    ensures SlotsOk(bits, Apply(bits, s, Publish(t))) && NoneLost(bits, Apply(bits, s, Publish(t)))
  {
    WindowIsInjective(bits, Base(s));
  }

  lemma PublishStep(bits: nat, s: State, t: nat)
    requires Inv(bits, s) && Enabled(bits, s, Publish(t))
    ensures Inv(bits, Apply(bits, s, Publish(t)))
  {
    PublishPosts(bits, s, t);
    PublishSlots(bits, s, t);
  }

  lemma ClearingStep(bits: nat, s: State)
    requires Inv(bits, s) && Enabled(bits, s, Consume) && s.consumer.Clearing?
    ensures Inv(bits, Apply(bits, s, Consume))
  {
    WindowIsInjective(bits, s.tail);
  }

  lemma ReleasingStep(bits: nat, s: State)
    requires Inv(bits, s) && Enabled(bits, s, Consume) && s.consumer.Releasing?
    ensures Inv(bits, Apply(bits, s, Consume))
  {
    var t, c := s.tail, Cap(bits);
    WindowIsInjective(bits, t);
    HomeIsMod(bits, t);
    HomeIsMod(bits, t + c);
    ModAddMultiple(t, c, 1);
    assert Home(bits, t + c) == Home(bits, t);
  }

  lemma CallingStep(bits: nat, s: State)
    requires Inv(bits, s) && Enabled(bits, s, Consume) && s.consumer.Calling?
    ensures Inv(bits, Apply(bits, s, Consume))
  {
    var u := Apply(bits, s, Consume);
    assert u.posted[..Done(u)][..Done(u) - 1] == s.posted[..Done(s)];
  }

  lemma AdvancingStep(bits: nat, s: State)
    requires Inv(bits, s) && Enabled(bits, s, Consume) && s.consumer.Advancing?
    ensures Inv(bits, Apply(bits, s, Consume))
  {
    var u := Apply(bits, s, Consume);
    assert u.posted[..Done(u)] == s.posted[..Done(s)];
  }

  lemma ReadingStep(bits: nat, s: State)
    requires Inv(bits, s) && Enabled(bits, s, Consume)
    requires s.consumer.Top? || s.consumer.Stopping? || s.consumer.HeadLoaded? || s.consumer.TailLoading?
             || s.consumer.AtSlot? || s.consumer.Moving?
    ensures Inv(bits, Apply(bits, s, Consume))
  {
  }

  lemma ConsumeStep(bits: nat, s: State)
    requires Inv(bits, s) && Enabled(bits, s, Consume)
    ensures Inv(bits, Apply(bits, s, Consume))
  {
    if s.consumer.Clearing? {
      ClearingStep(bits, s);
    } else if s.consumer.Releasing? {
      ReleasingStep(bits, s);
    } else if s.consumer.Calling? {
      CallingStep(bits, s);
    } else if s.consumer.Advancing? {
      AdvancingStep(bits, s);
    } else {
      ReadingStep(bits, s);
    }
  }

  lemma StopperStep(bits: nat, s: State, p: Stopper)
    requires Inv(bits, s) && !p.Live? && p.before <= s.head
    requires s.stopper.Live? || p.before == s.stopper.before
    requires p.Stopped? ==> s.consumer.Exited?
    ensures Inv(bits, s.(stopper := p))
  {
  }

  lemma StopStep(bits: nat, s: State, a: Action)
    requires a.StopClear? || a.StopPost? || a.StopReturn?
    requires Inv(bits, s) && Enabled(bits, s, a)
    ensures Inv(bits, Apply(bits, s, a))
  {
    if a.StopPost? {
      ClaimStep(bits, s, NO_OP);
      StopperStep(bits, Claimed(s, NO_OP), Joining(s.stopper.before, s.head));
    } else {
      StopperStep(bits, s, Apply(bits, s, a).stopper);
    }
  }

  lemma StepKeepsInv(bits: nat, s: State, a: Action)
    requires Inv(bits, s) && Enabled(bits, s, a) && NotOverflowing(bits, s, a)
    ensures Inv(bits, Apply(bits, s, a))
  {
    match a
    case Claim(fn) => ClaimStep(bits, s, fn);
    case Spin(t) => SpinStep(bits, s, t);
    case StoreFn(t) => StoreStep(bits, s, t);
    case Publish(t) => PublishStep(bits, s, t);
    case Consume => ConsumeStep(bits, s);
    case DropFn(_) =>
    case DropReady(_) =>
    case _ => StopStep(bits, s, a);
  }

  // ------------------------------------------------------------ runs without overflow

  ghost predicate Run(bits: nat, s: State, acts: seq<Action>, u: State)
    decreases |acts|
  {
    if acts == [] then s == u
    else Enabled(bits, s, acts[0]) && Run(bits, Apply(bits, s, acts[0]), acts[1..], u)
  }

  /** No post of the run leaves its waiting loop early. */
  ghost predicate NeverOverflows(bits: nat, s: State, acts: seq<Action>)
    decreases |acts|
  {
    acts != [] && Enabled(bits, s, acts[0]) ==>
      NotOverflowing(bits, s, acts[0]) && NeverOverflows(bits, Apply(bits, s, acts[0]), acts[1..])
  }

  /** Every claim of the run finds fewer than `bound` tickets between tail and its own. */
  ghost predicate ClaimsBelow(bits: nat, s: State, acts: seq<Action>, bound: nat)
    decreases |acts|
  {
    acts != [] && Enabled(bits, s, acts[0]) ==>
      && (acts[0].Claim? || acts[0].StopPost? ==> s.head < s.tail + bound)
      && ClaimsBelow(bits, Apply(bits, s, acts[0]), acts[1..], bound)
  }

  lemma {:induction false} RunKeepsInv(bits: nat, s: State, acts: seq<Action>, u: State)
    requires Inv(bits, s) && Run(bits, s, acts, u) && NeverOverflows(bits, s, acts)
    ensures Inv(bits, u)
    decreases |acts|
  {
    if acts != [] {
      StepKeepsInv(bits, s, acts[0]);
      RunKeepsInv(bits, Apply(bits, s, acts[0]), acts[1..], u);
    }
  }

  lemma InitInv(bits: nat, s: State)
    requires Init(bits, s)
    ensures Inv(bits, s)
  {
  }

  /** With any number of producers, in any interleaving without overflow: the callbacks run
      are the non-empty ones of a prefix of the tickets, in ticket order; every later ticket
      is still in its slot or with its post; and stop() returns only when every callback
      posted before it was called has run. */
  lemma DeliversInTicketOrder(bits: nat, s: State, acts: seq<Action>, u: State)
    requires Init(bits, s) && Run(bits, s, acts, u) && NeverOverflows(bits, s, acts)
    ensures |u.posted| == u.head && Done(u) <= u.head && u.ran == Calls(u.posted[..Done(u)])
    ensures |u.slots| == Cap(bits) && NoneLost(bits, u)
    ensures u.stopper.Stopped? ==> u.stopper.before <= Done(u)
    ensures Inv(bits, u)
  {
    InitInv(bits, s);
    RunKeepsInv(bits, s, acts, u);
  }

  lemma {:induction false} BeforeStays(bits: nat, s: State, acts: seq<Action>, u: State)
    requires Run(bits, s, acts, u) && !s.stopper.Live?
    ensures !u.stopper.Live? && u.stopper.before == s.stopper.before
    ensures s.posted <= u.posted
    decreases |acts|
  {
    if acts != [] {
      BeforeStays(bits, Apply(bits, s, acts[0]), acts[1..], u);
    }
  }

  /** When stop() has returned, every callback posted before it cleared the flag has run, and
      they ran in the order of their tickets. */
  lemma StopWaitsForEarlierPosts(bits: nat, s: State, xs: seq<Action>, m: State, ys: seq<Action>, u: State)
    requires Init(bits, s) && Run(bits, s, xs, m) && NeverOverflows(bits, s, xs)
    requires Enabled(bits, m, StopClear) && Run(bits, Apply(bits, m, StopClear), ys, u)
    requires NeverOverflows(bits, Apply(bits, m, StopClear), ys) && u.stopper.Stopped?
    ensures |m.posted| == m.head <= Done(u) <= |u.posted| && m.posted == u.posted[..m.head]
    ensures u.ran == Calls(u.posted[..Done(u)])
  {
    InitInv(bits, s);
    RunKeepsInv(bits, s, xs, m);
    StepKeepsInv(bits, m, StopClear);
    var m1 := m.(stopper := Cleared(m.head));
    AfterClear(bits, m1, ys, u, m.head, m.posted);
  }

  lemma AfterClear(bits: nat, m: State, ys: seq<Action>, u: State, before: nat, posted: seq<Callback>)
    requires Inv(bits, m) && m.stopper == Cleared(before) && m.head == before && m.posted == posted
    requires Run(bits, m, ys, u) && NeverOverflows(bits, m, ys) && u.stopper.Stopped?
    ensures |posted| == before <= Done(u) <= |u.posted| && posted == u.posted[..before]
    ensures u.ran == Calls(u.posted[..Done(u)])
  {
    RunKeepsInv(bits, m, ys, u);
    BeforeStays(bits, m, ys, u);
    StoppedHasRun(bits, u);
  }

  lemma StoppedHasRun(bits: nat, u: State)
    requires Inv(bits, u) && u.stopper.Stopped?
    ensures u.stopper.before <= Done(u) <= |u.posted| && u.ran == Calls(u.posted[..Done(u)])
  {
  }

  lemma FittingStep(bits: nat, s: State, a: Action)
    requires Inv(bits, s) && Enabled(bits, s, a)
    requires a.Claim? || a.StopPost? ==> s.head < s.tail + Cap(bits)
    requires forall t :: t in s.posts ==> t < s.tail + Cap(bits)
    ensures NotOverflowing(bits, s, a)
    ensures forall t :: t in Apply(bits, s, a).posts ==> t < Apply(bits, s, a).tail + Cap(bits)
  {
  }

  lemma {:induction false} FittingClaimsNeverOverflow(bits: nat, s: State, acts: seq<Action>, u: State)
    requires Inv(bits, s) && Run(bits, s, acts, u) && ClaimsBelow(bits, s, acts, Cap(bits))
    requires forall t :: t in s.posts ==> t < s.tail + Cap(bits)
    ensures NeverOverflows(bits, s, acts)
    decreases |acts|
  {
    if acts != [] {
      FittingStep(bits, s, acts[0]);
      StepKeepsInv(bits, s, acts[0]);
      FittingClaimsNeverOverflow(bits, Apply(bits, s, acts[0]), acts[1..], u);
    }
  }

  /** No two tickets that still need their slots share one, exactly as long as at most cap
      of them are outstanding. */
  lemma SlotsAreExclusiveIff(bits: nat, s: State)
    requires Base(s) <= s.head
    ensures (forall i, j :: Base(s) <= i < j < s.head ==> Home(bits, i) != Home(bits, j))
            <==> s.head <= Base(s) + Cap(bits)
  {
    WindowIsInjective(bits, Base(s));
    var i, j := Base(s), Base(s) + Cap(bits);
    HomeIsMod(bits, i);
    HomeIsMod(bits, j);
    ModAddMultiple(i, Cap(bits), 1);
    assert Home(bits, i) == Home(bits, j);
  }

  /** A consumer that has exited never runs anything more, so a callback posted too late for
      its last look at the head is lost. */
  lemma {:induction false} NothingRunsAfterExit(bits: nat, s: State, acts: seq<Action>, u: State)
    requires s.consumer.Exited? && Run(bits, s, acts, u)
    ensures u.consumer == s.consumer && u.ran == s.ran && u.tail == s.tail
    decreases |acts|
  {
    if acts != [] {
      NothingRunsAfterExit(bits, Apply(bits, s, acts[0]), acts[1..], u);
    }
  }

  /** Once the consumer has exited, a posted callback has run if and only if its ticket was
      claimed before the consumer's last load of the head. */
  lemma ExitDrainsExactly(bits: nat, s: State)
    requires Inv(bits, s) && s.consumer.Exited?
    ensures s.ran == Calls(s.posted[..s.consumer.head]) && s.tail == s.consumer.head
    ensures s.stopper.before <= s.consumer.head
  {
  }
}
