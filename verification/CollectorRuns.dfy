/** How a collector thread's run begins, which states follow which, and how it ends. */
module CollectorRuns {
  import opened CollectorModel
  import opened Words

  // ---------------------------------------------------------------- which states follow which

  /** The arrows of the state diagram that the loop takes. */
  predicate Leads(from: State, to: State) {
    match from
    case Waiting => to == Connecting
    case Connecting => to == Live
    case Syncing => to == Live
    case Live => to == Stale || to == Offline
    case Stale => to == Live || to == Offline
    case Offline => to == Waiting
  }

  ghost predicate IsPath(states: seq<State>) {
    forall i :: 0 <= i < |states| - 1 ==> Leads(states[i], states[i + 1])
  }

  /** The states set so far are a path of the diagram that began with CONNECTING and has come
      to the present state. */
  ghost predicate OnPath(m: Machine) {
    && m.changes != [] && m.changes[0] == Connecting && m.changes[|m.changes| - 1] == m.state
    && IsPath(m.changes) && m.state != Syncing
  }

  lemma SetKeepsPath(m: Machine, s: State)
    requires OnPath(m) && Leads(m.state, s) && s != Syncing
    ensures OnPath(SetState(m, s))
  {
    var u := m.changes + [s];
    forall i | 0 <= i < |u| - 1 ensures Leads(u[i], u[i + 1]) {
      assert i < |m.changes| - 1 ==> Leads(m.changes[i], m.changes[i + 1]);
    }
  }

  lemma CollectKeepsPath(c: Config, m: Machine, r: Round)
    requires OnPath(m) && (m.state == Live || m.state == Stale)
    ensures OnPath(Collect(c, m, r))
  {
    var t := CheckStale(c, m, r.now);
    if GoesStale(c, m, r.now) {
      SetKeepsPath(m, Stale);
    }
    if c.hasTick {
      if r.tickOk {
        GoodTickKeepsPath(t, r.after);
      } else {
        BadTickKeepsPath(c, t);
      }
    }
  }

  lemma GoodTickKeepsPath(m: Machine, after: U64)
    requires OnPath(m) && (m.state == Live || m.state == Stale)
    ensures OnPath(GoodTick(m, after))
  {
    if m.state == Stale {
      SetKeepsPath(m, Live);
    }
  }

  lemma BadTickKeepsPath(c: Config, m: Machine)
    requires OnPath(m) && (m.state == Live || m.state == Stale)
    ensures OnPath(BadTick(c, m))
  {
    SetKeepsPath(m, Offline);
  }

  lemma StepKeepsPath(c: Config, m: Machine, r: Round)
    requires OnPath(m)
    ensures OnPath(Step(c, m, r).machine)
  {
    match m.state
    case Waiting => SetKeepsPath(m, Connecting);
    case Connecting => SetKeepsPath(m, Live);
    case Live => CollectKeepsPath(c, m, r);
    case Stale => CollectKeepsPath(c, m, r);
    case Offline => SetKeepsPath(m, Waiting);
  }

  // ---------------------------------------------------------------- when the loop is left

  /** The machine after k whole passes. */
  function At(c: Config, m: Machine, rounds: seq<Round>, k: nat): Machine
    requires k <= |rounds|
    decreases k
  {
    if k == 0 then m else At(c, Step(c, m, rounds[0]).machine, rounds[1..], k - 1)
  }

  /** A pass that finds this state sleeps and heeds how the sleep ends. */
  predicate Sleeps(c: Config, s: State, r: Round) {
    s == Waiting || s == Offline || ((s == Connecting || s == Syncing) && c.hasConnect && !r.connectOk)
  }

  /** The loop is left at this pass: by the stop flag at its top or by a sleep cut short. */
  predicate Leaves(c: Config, m: Machine, r: Round) {
    r.stop || (r.stopInSleep && Sleeps(c, m.state, r))
  }

  /** No pass before number k leaves the loop. */
  predicate Stays(c: Config, m: Machine, rounds: seq<Round>, k: nat)
    requires k <= |rounds|
    decreases k
  {
    k == 0 || (!Leaves(c, m, rounds[0]) && Stays(c, Step(c, m, rounds[0]).machine, rounds[1..], k - 1))
  }

  /** Pass number k is the first to leave it. */
  predicate LeavesAt(c: Config, m: Machine, rounds: seq<Round>, k: nat) {
    k < |rounds| && Stays(c, m, rounds, k) && Leaves(c, At(c, m, rounds, k), rounds[k])
  }

  /** The loop goes on while no pass leaves it. */
  lemma {:induction false} LoopGoesOn(c: Config, m: Machine, rounds: seq<Round>, k: nat)
    requires k <= |rounds| && Stays(c, m, rounds, k)
    ensures Loop(c, m, rounds) == Loop(c, At(c, m, rounds, k), rounds[k..])
    decreases k
  {
    if k == 0 {
      assert rounds[0..] == rounds;
    } else {
      StepGoesOn(c, m, rounds[0]);
      LoopGoesOn(c, Step(c, m, rounds[0]).machine, rounds[1..], k - 1);
      assert rounds[1..][k - 1..] == rounds[k..];
    }
  }

  lemma StepGoesOn(c: Config, m: Machine, r: Round)
    ensures Step(c, m, r).exited <==> r.stopInSleep && Sleeps(c, m.state, r)
  {
  }

  /** Where the loop is left, and with what: a collector cut short offline has called its
      disconnect once more. */
  lemma LoopIsLeft(c: Config, m: Machine, rounds: seq<Round>, k: nat)
    requires LeavesAt(c, m, rounds, k)
    ensures var u := At(c, m, rounds, k);
            Loop(c, m, rounds) == Outcome(if !rounds[k].stop && u.state == Offline then Disconnect(c, u) else u, true)
  {
    LoopGoesOn(c, m, rounds, k);
    assert rounds[k..][0] == rounds[k];
  }

  lemma {:induction false} FirstLeaving(c: Config, m: Machine, rounds: seq<Round>) returns (k: nat)
    ensures k <= |rounds| && Stays(c, m, rounds, k)
    ensures k < |rounds| ==> LeavesAt(c, m, rounds, k)
    decreases |rounds|
  {
    if rounds == [] || Leaves(c, m, rounds[0]) {
      k := 0;
    } else {
      var j := FirstLeaving(c, Step(c, m, rounds[0]).machine, rounds[1..]);
      k := j + 1;
    }
  }

  // ---------------------------------------------------------------- what holds until then

  ghost predicate Good(c: Config, m: Machine) {
    Counted(m) && Logged(c, m) && OnPath(m)
  }

  lemma {:induction false} AtIsGood(c: Config, m: Machine, rounds: seq<Round>, k: nat)
    requires k <= |rounds| && Good(c, m) && Stays(c, m, rounds, k)
    ensures Good(c, At(c, m, rounds, k))
    decreases k
  {
    if k > 0 {
      PassIsGood(c, m, rounds[0]);
      AtIsGood(c, Step(c, m, rounds[0]).machine, rounds[1..], k - 1);
    }
  }

  lemma PassIsGood(c: Config, m: Machine, r: Round)
    requires Good(c, m) && !Leaves(c, m, r)
    ensures Good(c, Step(c, m, r).machine)
  {
    StepKeeps(c, m, r);
    StepKeepsPath(c, m, r);
  }

  lemma FirstIsGood(c: Config)
    ensures Good(c, SetState(REGISTERED, Connecting))
  {
    QuietChangeIsLogged(c, [], [], 0, Connecting);
  }

  // ---------------------------------------------------------------- the whole thread

  /** The first state set, and every later one until the thread returns, follows the diagram. */
  lemma RunFollowsDiagram(c: Config, rounds: seq<Round>)
    ensures var o := Thread(c, REGISTERED, false, rounds);
            !o.exited ==> OnPath(o.machine)
    ensures var o := Thread(c, REGISTERED, false, rounds);
            o.exited ==> |o.machine.changes| >= 2 && o.machine.changes[0] == Connecting
                         && IsPath(o.machine.changes[..|o.machine.changes| - 1])
  {
    var first := SetState(REGISTERED, Connecting);
    FirstIsGood(c);
    var k := FirstLeaving(c, first, rounds);
    AtIsGood(c, first, rounds, k);
    if k < |rounds| {
      LoopIsLeft(c, first, rounds, k);
      var o := Thread(c, REGISTERED, false, rounds);
      assert o.machine.changes[..|o.machine.changes| - 1] == At(c, first, rounds, k).changes;
    } else {
      LoopGoesOn(c, first, rounds, k);
      assert rounds[k..] == [];
    }
  }

  lemma FinishCounts(c: Config, m: Machine, u: Machine)
    requires Logged(c, m) && (u == m || u == Disconnect(c, m))
    ensures var f := Finish(c, u);
            && f.state == Offline && f.changes == m.changes + [Offline] && f.ticks == m.ticks
            && Count(f.changes, Offline) == Outages(f.ticks) + 1
            && Count(f.changes, Waiting) == Count(m.changes, Waiting)
            && f.disconnects == u.disconnects + (if c.hasDisconnect then 1 else 0)
            && Syncing !in f.changes
  {
    Snoc(m.changes, Offline, Offline);
    Snoc(m.changes, Offline, Waiting);
  }

  /** A thread returns exactly when its staggered start is cut short, or at the first pass that
      finds the stop flag or has a sleep cut short. */
  lemma ThreadReturnsIff(c: Config, stopped: bool, rounds: seq<Round>)
    ensures Thread(c, REGISTERED, stopped, rounds).exited
       <==> stopped || exists k: nat :: LeavesAt(c, SetState(REGISTERED, Connecting), rounds, k)
  {
    var first := SetState(REGISTERED, Connecting);
    if k: nat :| LeavesAt(c, first, rounds, k) {
      LoopIsLeft(c, first, rounds, k);
    } else {
      var k := FirstLeaving(c, first, rounds);
      LoopGoesOn(c, first, rounds, k);
      assert rounds[k..] == [];
    }
  }

  /** A thread that has returned is OFFLINE, set last; it went OFFLINE once for each outage and
      once at its return; and it called disconnect once for each time it went OFFLINE and for
      each time it came back from there, even if that wait was then cut short. */
  lemma ReturnedIsOffline(c: Config, rounds: seq<Round>, k: nat)
    requires LeavesAt(c, SetState(REGISTERED, Connecting), rounds, k)
    ensures var m := Thread(c, REGISTERED, false, rounds).machine;
            var u := At(c, SetState(REGISTERED, Connecting), rounds, k);
            && m.state == Offline && m.changes == u.changes + [Offline] && m.ticks == u.ticks
            && Count(m.changes, Offline) == Outages(m.ticks) + 1
            && Syncing !in m.changes
            && m.disconnects ==
               (if !c.hasDisconnect then 0
                else Count(m.changes, Offline) + Count(m.changes, Waiting)
                     + if !rounds[k].stop && u.state == Offline then 1 else 0)
  {
    var first := SetState(REGISTERED, Connecting);
    FirstIsGood(c);
    AtIsGood(c, first, rounds, k);
    LoopIsLeft(c, first, rounds, k);
    var u := At(c, first, rounds, k);
    FinishCounts(c, u, Loop(c, first, rounds).machine);
  }

  /** A thread stopped during its staggered start sets OFFLINE, calls disconnect once, and does
      nothing else. */
  lemma StoppedAtOnce(c: Config, rounds: seq<Round>)
    ensures var o := Thread(c, REGISTERED, true, rounds);
            && o.exited && o.machine.changes == [Offline] && o.machine.state == Offline && o.machine.ticks == []
            && o.machine.disconnects == if c.hasDisconnect then 1 else 0
  {
    assert [] + [Offline] == [Offline];
  }
}
