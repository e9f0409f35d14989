/** A collector thread as a function of what its callbacks return, what the clock shows and
    when it is told to stop, and what holds over every run. */
module CollectorModel {
  import Bits
  import opened Words

  const STALE_AFTER := 3
  const OFFLINE_AFTER := 3

  function Next64(n: U64): U64 {
    if n == TWO_64 - 1 then 0 else n + 1
  }

  function Next32(n: U32): U32 {
    if n == TWO_32 - 1 then 0 else n + 1
  }

  /** A 64-bit counter after n increments. */
  function Wrap64(n: nat): U64 {
    if n == 0 then 0 else Next64(Wrap64(n - 1))
  }

  /** A 32-bit counter after n increments. */
  function Wrap32(n: nat): U32 {
    if n == 0 then 0 else Next32(Wrap32(n - 1))
  }

  /** A counter holds what it counts, up to its width. */
  lemma {:induction false} CountsUpToWidth(n: nat)
    ensures Wrap64(n) == n % TWO_64 && Wrap32(n) == n % TWO_32
    ensures (n < TWO_64 ==> Wrap64(n) == n) && (n < TWO_32 ==> Wrap32(n) == n)
  {
    if n > 0 {
      CountsUpToWidth(n - 1);
      Bits.ModStep(n - 1, TWO_64);
      Bits.ModStep(n - 1, TWO_32);
    }
  }

  datatype State = Waiting | Connecting | Syncing | Live | Stale | Offline

  datatype Config = Config(hasConnect: bool, hasTick: bool, hasDisconnect: bool, intervalMs: U32)

  /** One pass of the thread's loop: the stop flag at its top, what the callbacks return, the
      clock before and after the tick, and whether a sleep that the pass heeds was cut short. */
  datatype Round = Round(stop: bool, connectOk: bool, tickOk: bool, now: U64, after: U64, stopInSleep: bool)

  /** The collector's fields, with the disconnect calls, the tick results and the states set
      so far. */
  datatype Machine = Machine(state: State, lastUpdateMs: U64, collectCount: U64, errorCount: U64,
                             consecutiveErrors: U32, disconnects: nat, ticks: seq<bool>, changes: seq<State>)

  datatype Outcome = Outcome(machine: Machine, exited: bool)

  function SetState(m: Machine, s: State): Machine {
    m.(state := s, changes := m.changes + [s])
  }

  function Disconnect(c: Config, m: Machine): Machine {
    if c.hasDisconnect then m.(disconnects := m.disconnects + 1) else m
  }

  predicate GoesStale(c: Config, m: Machine, now: U64) {
    m.state == Live && m.lastUpdateMs != 0 && Elapsed(now, m.lastUpdateMs) > c.intervalMs * STALE_AFTER
  }

  function CheckStale(c: Config, m: Machine, now: U64): Machine {
    if GoesStale(c, m, now) then SetState(m, Stale) else m
  }

  function GoodTick(m: Machine, after: U64): Machine {
    var t := m.(lastUpdateMs := after, collectCount := Next64(m.collectCount),
                consecutiveErrors := 0, ticks := m.ticks + [true]);
    if t.state == Stale then SetState(t, Live) else t
  }

  function BadTick(c: Config, m: Machine): Machine {
    var k := Next32(m.consecutiveErrors);
    var t := m.(errorCount := Next64(m.errorCount), consecutiveErrors := k, ticks := m.ticks + [false]);
    if k >= OFFLINE_AFTER then SetState(Disconnect(c, t), Offline) else t
  }

  function Collect(c: Config, m: Machine, r: Round): Machine {
    var t := CheckStale(c, m, r.now);
    if !c.hasTick then t else if r.tickOk then GoodTick(t, r.after) else BadTick(c, t)
  }

  /** The body of the loop. */
  function Step(c: Config, m: Machine, r: Round): Outcome {
    match m.state
    case Waiting =>
      if r.stopInSleep then Outcome(m, true) else Outcome(SetState(m, Connecting), false)
    case Connecting | Syncing =>
      if !c.hasConnect || r.connectOk then Outcome(SetState(m, Live), false)
      else Outcome(m, r.stopInSleep)
    case Live | Stale => Outcome(Collect(c, m, r), false)
    case Offline =>
      var t := Disconnect(c, m);
      if r.stopInSleep then Outcome(t, true) else Outcome(SetState(t, Waiting), false)
  }

  function Finish(c: Config, m: Machine): Machine {
    SetState(Disconnect(c, m), Offline)
  }

  /** The loop, before the code at its exit. */
  function Loop(c: Config, m: Machine, rounds: seq<Round>): Outcome
    decreases |rounds|
  {
    if rounds == [] then Outcome(m, false)
    else if rounds[0].stop then Outcome(m, true)
    else
      var o := Step(c, m, rounds[0]);
      if o.exited then o else Loop(c, o.machine, rounds[1..])
  }

  /** The thread: `stopped` says that the staggered start was cut short. The outcome is
      `exited` when the thread has returned. */
  function Thread(c: Config, m: Machine, stopped: bool, rounds: seq<Round>): Outcome {
    if stopped then Outcome(Finish(c, m), true)
    else
      var o := Loop(c, SetState(m, Connecting), rounds);
      if o.exited then Outcome(Finish(c, o.machine), true) else o
  }

  /** A collector as collector_register leaves it. */
  const REGISTERED := Machine(Waiting, 0, 0, 0, 0, 0, [], [])

  // ---------------------------------------------------------------- what the counters count

  function Count<T(==)>(s: seq<T>, x: T): (n: nat)
    ensures n <= |s|
    decreases |s|
  {
    if s == [] then 0 else Count(s[..|s| - 1], x) + if s[|s| - 1] == x then 1 else 0
  }

  /** The failed ticks since the last good one. */
  function Trailing(ticks: seq<bool>): (n: nat)
    ensures n <= |ticks|
    decreases |ticks|
  {
    if ticks == [] || ticks[|ticks| - 1] then 0 else Trailing(ticks[..|ticks| - 1]) + 1
  }

  /** The last Trailing(ticks) ticks failed, and the one before them, if any, did not. */
  lemma {:induction false} TrailingIsLongest(ticks: seq<bool>)
    ensures forall i :: |ticks| - Trailing(ticks) <= i < |ticks| ==> !ticks[i]
    ensures Trailing(ticks) < |ticks| ==> ticks[|ticks| - 1 - Trailing(ticks)]
    decreases |ticks|
  {
    if ticks != [] && !ticks[|ticks| - 1] {
      var front := ticks[..|ticks| - 1];
      TrailingIsLongest(front);
      assert forall i :: 0 <= i < |front| ==> ticks[i] == front[i];
    }
  }

  /** The failed ticks that found at least two failures just before them. */
  function Outages(ticks: seq<bool>): (n: nat)
    decreases |ticks|
  {
    if ticks == [] then 0
    else Outages(ticks[..|ticks| - 1]) +
         if !ticks[|ticks| - 1] && Wrap32(Trailing(ticks)) >= 3 then 1 else 0
  }

  lemma Snoc<T>(s: seq<T>, x: T, y: T)
    ensures (s + [x])[..|s + [x]| - 1] == s
    ensures Count(s + [x], y) == Count(s, y) + if x == y then 1 else 0
  {
    assert (s + [x])[..|s|] == s;
  }

  lemma {:induction false} EveryTickCounts(ticks: seq<bool>)
    ensures Count(ticks, true) + Count(ticks, false) == |ticks|
    decreases |ticks|
  {
    if ticks != [] {
      var t, last := ticks[..|ticks| - 1], ticks[|ticks| - 1];
      EveryTickCounts(t);
      assert ticks == t + [last];
      Snoc(t, last, true);
      Snoc(t, last, false);
    }
  }

  lemma TickCounts(ticks: seq<bool>, ok: bool)
    ensures Count(ticks + [ok], true) == Count(ticks, true) + (if ok then 1 else 0)
    ensures Count(ticks + [ok], false) == Count(ticks, false) + (if ok then 0 else 1)
    ensures Trailing(ticks + [ok]) == if ok then 0 else Trailing(ticks) + 1
    ensures Outages(ticks + [ok]) == Outages(ticks)
              + if !ok && Wrap32(Trailing(ticks + [ok])) >= 3 then 1 else 0
  {
    Snoc(ticks, ok, true);
    Snoc(ticks, ok, false);
  }

  ghost predicate CountedBy(ticks: seq<bool>, collected: U64, errors: U64, consecutive: U32) {
    && collected == Wrap64(Count(ticks, true))
    && errors == Wrap64(Count(ticks, false))
    && consecutive == Wrap32(Trailing(ticks))
  }

  /** The counters are the tick results so far, in the widths of their fields. */
  ghost predicate Counted(m: Machine) {
    CountedBy(m.ticks, m.collectCount, m.errorCount, m.consecutiveErrors)
  }

  lemma TickIsCounted(ticks: seq<bool>, collected: U64, errors: U64, consecutive: U32)
    requires CountedBy(ticks, collected, errors, consecutive)
    ensures CountedBy(ticks + [true], Next64(collected), errors, 0)
    ensures CountedBy(ticks + [false], collected, Next64(errors), Next32(consecutive))
  {
    TickCounts(ticks, true);
    TickCounts(ticks, false);
  }

  ghost predicate LoggedBy(c: Config, ticks: seq<bool>, changes: seq<State>, disconnects: nat) {
    && Count(changes, Offline) == Outages(ticks)
    && disconnects == (if c.hasDisconnect then Count(changes, Offline) + Count(changes, Waiting) else 0)
    && Syncing !in changes
  }

  /** The collector went offline once for each outage, and called disconnect once going
      offline and once coming back. */
  ghost predicate Logged(c: Config, m: Machine) {
    LoggedBy(c, m.ticks, m.changes, m.disconnects)
  }

  lemma QuietChangeIsLogged(c: Config, ticks: seq<bool>, changes: seq<State>, disconnects: nat, s: State)
    requires LoggedBy(c, ticks, changes, disconnects) && (s == Connecting || s == Live || s == Stale)
    ensures LoggedBy(c, ticks, changes + [s], disconnects)
  {
    Snoc(changes, s, Offline);
    Snoc(changes, s, Waiting);
  }

  lemma DisconnectingChangeIsLogged(c: Config, ticks: seq<bool>, changes: seq<State>, disconnects: nat)
    requires LoggedBy(c, ticks, changes, disconnects)
    ensures var n := if c.hasDisconnect then disconnects + 1 else disconnects;
            && LoggedBy(c, ticks, changes + [Waiting], n)
            && (Wrap32(Trailing(ticks + [false])) >= 3 ==>
                  LoggedBy(c, ticks + [false], changes + [Offline], n))
  {
    Snoc(changes, Waiting, Offline);
    Snoc(changes, Waiting, Waiting);
    Snoc(changes, Offline, Offline);
    Snoc(changes, Offline, Waiting);
    TickCounts(ticks, false);
  }

  lemma QuietTickIsLogged(c: Config, ticks: seq<bool>, changes: seq<State>, disconnects: nat, ok: bool)
    requires LoggedBy(c, ticks, changes, disconnects)
    requires ok || Wrap32(Trailing(ticks + [ok])) < 3
    ensures LoggedBy(c, ticks + [ok], changes, disconnects)
  {
    TickCounts(ticks, ok);
  }

  lemma GoodTickKeeps(c: Config, m: Machine, after: U64)
    requires Counted(m) && Logged(c, m)
    ensures Counted(GoodTick(m, after)) && Logged(c, GoodTick(m, after))
  {
    TickIsCounted(m.ticks, m.collectCount, m.errorCount, m.consecutiveErrors);
    QuietTickIsLogged(c, m.ticks, m.changes, m.disconnects, true);
    QuietChangeIsLogged(c, m.ticks + [true], m.changes, m.disconnects, Live);
  }

  lemma BadTickKeeps(c: Config, m: Machine)
    requires Counted(m) && Logged(c, m)
    ensures Counted(BadTick(c, m)) && Logged(c, BadTick(c, m))
  {
    TickIsCounted(m.ticks, m.collectCount, m.errorCount, m.consecutiveErrors);
    if Next32(m.consecutiveErrors) >= 3 {
      DisconnectingChangeIsLogged(c, m.ticks, m.changes, m.disconnects);
    } else {
      QuietTickIsLogged(c, m.ticks, m.changes, m.disconnects, false);
    }
  }

  lemma CollectKeeps(c: Config, m: Machine, r: Round)
    requires Counted(m) && Logged(c, m) && (m.state == Live || m.state == Stale)
    ensures var t := Collect(c, m, r);
            Counted(t) && Logged(c, t) && t.state != Syncing
  {
    var t := CheckStale(c, m, r.now);
    CheckStaleKeeps(c, m, r.now, t);
    if !c.hasTick {
      assert Collect(c, m, r) == t;
    } else if r.tickOk {
      GoodTickKeeps(c, t, r.after);
      assert Collect(c, m, r) == GoodTick(t, r.after);
    } else {
      BadTickKeeps(c, t);
      assert Collect(c, m, r) == BadTick(c, t);
    }
  }

  lemma CheckStaleKeeps(c: Config, m: Machine, now: U64, t: Machine)
    requires Counted(m) && Logged(c, m) && (m.state == Live || m.state == Stale) && t == CheckStale(c, m, now)
    ensures Counted(t) && Logged(c, t) && (t.state == Live || t.state == Stale)
  {
    QuietChangeIsLogged(c, m.ticks, m.changes, m.disconnects, Stale);
  }

  lemma ConnectingKeeps(c: Config, m: Machine, u: Machine)
    requires Counted(m) && Logged(c, m)
    requires u == m || u == SetState(m, Connecting) || u == SetState(m, Live)
    ensures Counted(u) && Logged(c, u)
  {
    QuietChangeIsLogged(c, m.ticks, m.changes, m.disconnects, Connecting);
    QuietChangeIsLogged(c, m.ticks, m.changes, m.disconnects, Live);
  }

  lemma ReturningKeeps(c: Config, m: Machine)
    requires Counted(m) && Logged(c, m)
    ensures Counted(Disconnect(c, m)) && Counted(SetState(Disconnect(c, m), Waiting))
    ensures Logged(c, SetState(Disconnect(c, m), Waiting))
  {
    DisconnectingChangeIsLogged(c, m.ticks, m.changes, m.disconnects);
  }

  lemma StepKeeps(c: Config, m: Machine, r: Round)
    requires Counted(m) && Logged(c, m) && m.state != Syncing
    ensures var o := Step(c, m, r);
            Counted(o.machine) && o.machine.state != Syncing && (!o.exited ==> Logged(c, o.machine))
  {
    var u := Step(c, m, r).machine;
    if m.state == Offline {
      ReturningKeeps(c, m);
    } else if m.state == Live || m.state == Stale {
      CollectKeeps(c, m, r);
    } else {
      ConnectingKeeps(c, m, u);
    }
  }

  lemma {:induction false} LoopKeeps(c: Config, m: Machine, rounds: seq<Round>)
    requires Counted(m) && Logged(c, m) && m.state != Syncing
    ensures var o := Loop(c, m, rounds);
            Counted(o.machine) && o.machine.state != Syncing && (!o.exited ==> Logged(c, o.machine))
    decreases |rounds|
  {
    if rounds != [] && !rounds[0].stop {
      StepKeeps(c, m, rounds[0]);
      var o := Step(c, m, rounds[0]);
      if !o.exited {
        LoopKeeps(c, o.machine, rounds[1..]);
      }
    }
  }

  /** At every moment of every run of a fresh collector: every tick made is counted once, as
      collected or as an error; consecutive_errors is the failed ticks since the last good
      one, whatever reconnects lie between; and until it stops, it has gone offline exactly
      once for each failed tick with that count at 3 or more. */
  lemma RunsAreCounted(c: Config, stopped: bool, rounds: seq<Round>)
    ensures var o := Thread(c, REGISTERED, stopped, rounds);
            var m := o.machine;
            && Counted(m)
            && m.collectCount == Count(m.ticks, true) % 0x1_0000_0000_0000_0000
            && m.errorCount == Count(m.ticks, false) % 0x1_0000_0000_0000_0000
            && Count(m.ticks, true) + Count(m.ticks, false) == |m.ticks|
            && m.consecutiveErrors == Trailing(m.ticks) % 0x1_0000_0000
            && (!o.exited ==> Logged(c, m) && m.state != Syncing)
  {
    QuietChangeIsLogged(c, [], [], 0, Connecting);
    var first := SetState(REGISTERED, Connecting);
    LoopKeeps(c, first, rounds);
    var m := Thread(c, REGISTERED, stopped, rounds).machine;
    EveryTickCounts(m.ticks);
    CountsUpToWidth(Count(m.ticks, true));
    CountsUpToWidth(Count(m.ticks, false));
    CountsUpToWidth(Trailing(m.ticks));
  }

  // ---------------------------------------------------------------- transitions

  /** The states set in one pass. */
  function Changes(c: Config, m: Machine, r: Round): seq<State> {
    var t := Step(c, m, r).machine;
    if |m.changes| <= |t.changes| then t.changes[|m.changes|..] else []
  }

  predicate MakesTick(c: Config, m: Machine) {
    (m.state == Live || m.state == Stale) && c.hasTick
  }

  /** What the lateness check sets. */
  function LateStates(c: Config, m: Machine, now: U64): seq<State> {
    if GoesStale(c, m, now) then [Stale] else []
  }

  /** What the tick of a collector that is live or stale sets, told from the tick history. */
  function TickStates(c: Config, m: Machine, r: Round): seq<State> {
    if !c.hasTick then []
    else if r.tickOk then (if m.state == Stale || GoesStale(c, m, r.now) then [Live] else [])
    else if Wrap32(Trailing(m.ticks + [false])) >= 3 then [Offline]
    else []
  }

  /** What one pass sets. */
  function NextStates(c: Config, m: Machine, r: Round): seq<State> {
    match m.state
    case Waiting => if r.stopInSleep then [] else [Connecting]
    case Connecting => if !c.hasConnect || r.connectOk then [Live] else []
    case Syncing => if !c.hasConnect || r.connectOk then [Live] else []
    case Offline => if r.stopInSleep then [] else [Waiting]
    case Live => LateStates(c, m, r.now) + TickStates(c, m, r)
    case Stale => LateStates(c, m, r.now) + TickStates(c, m, r)
  }

  lemma Dropped<T>(s: seq<T>, t: seq<T>, u: seq<T>)
    requires t == s + u
    ensures t[|s|..] == u
  {
  }

  lemma Joined<T>(s: seq<T>, t: seq<T>, u: seq<T>)
    ensures s + t + u == s + (t + u) && s + [] == s
  {
  }

  lemma CheckChanges(c: Config, m: Machine, now: U64)
    ensures CheckStale(c, m, now).changes == m.changes + LateStates(c, m, now)
  {
    Joined(m.changes, [], []);
  }

  lemma TickChanges(c: Config, m: Machine, r: Round, t: Machine)
    requires Counted(m) && (m.state == Live || m.state == Stale) && t == CheckStale(c, m, r.now)
    ensures Collect(c, m, r).changes == t.changes + TickStates(c, m, r)
  {
    Joined(t.changes, [], []);
    if c.hasTick && !r.tickOk {
      TickCounts(m.ticks, false);
      assert Next32(m.consecutiveErrors) == Wrap32(Trailing(m.ticks + [false]));
    }
  }

  lemma CollectChanges(c: Config, m: Machine, r: Round)
    requires Counted(m) && (m.state == Live || m.state == Stale)
    ensures Collect(c, m, r).changes == m.changes + NextStates(c, m, r)
  {
    var t := CheckStale(c, m, r.now);
    CheckChanges(c, m, r.now);
    TickChanges(c, m, r, t);
    Joined(m.changes, LateStates(c, m, r.now), TickStates(c, m, r));
  }

  lemma StepChanges(c: Config, m: Machine, r: Round)
    requires Counted(m)
    ensures Step(c, m, r).machine.changes == m.changes + NextStates(c, m, r)
  {
    if m.state == Live || m.state == Stale {
      CollectChanges(c, m, r);
    }
  }

  lemma ChangesAreNext(c: Config, m: Machine, r: Round)
    requires Counted(m)
    ensures Changes(c, m, r) == NextStates(c, m, r)
  {
    StepChanges(c, m, r);
    Dropped(m.changes, Step(c, m, r).machine.changes, NextStates(c, m, r));
  }

  lemma OfflineInNext(c: Config, m: Machine, r: Round, next: seq<State>)
    requires next == NextStates(c, m, r)
    ensures Offline in next
       <==> MakesTick(c, m) && !r.tickOk && Wrap32(Trailing(m.ticks + [false])) >= 3
  {
  }

  /** Within the loop a collector goes offline exactly on a failed tick that makes three or
      more in a row. */
  lemma OfflineIff(c: Config, m: Machine, r: Round)
    requires Counted(m)
    ensures Offline in Changes(c, m, r)
       <==> MakesTick(c, m) && !r.tickOk && Wrap32(Trailing(m.ticks + [false])) >= 3
  {
    ChangesAreNext(c, m, r);
    OfflineInNext(c, m, r, Changes(c, m, r));
  }

  /** It goes live exactly by a connect that succeeds or is absent, or by a good tick of a
      collector that is stale, be it since an earlier pass or since this one's check. */
  lemma LiveIff(c: Config, m: Machine, r: Round)
    requires Counted(m)
    ensures Live in Changes(c, m, r)
       <==> || ((m.state == Connecting || m.state == Syncing) && (!c.hasConnect || r.connectOk))
            || (MakesTick(c, m) && r.tickOk && (m.state == Stale || GoesStale(c, m, r.now)))
  {
    ChangesAreNext(c, m, r);
  }

  /** It goes stale exactly when a pass finds the last good tick more than three intervals
      back, whatever its own tick does. */
  lemma StaleIff(c: Config, m: Machine, r: Round)
    requires Counted(m)
    ensures Stale in Changes(c, m, r)
       <==> m.state == Live && m.lastUpdateMs != 0 && Elapsed(r.now, m.lastUpdateMs) > 3 * c.intervalMs
  {
    ChangesAreNext(c, m, r);
  }

  /** It starts connecting exactly when its wait is over, and waits exactly when its time
      offline is. */
  lemma ConnectingAndWaitingIff(c: Config, m: Machine, r: Round)
    requires Counted(m)
    ensures Connecting in Changes(c, m, r) <==> m.state == Waiting && !r.stopInSleep
    ensures Waiting in Changes(c, m, r) <==> m.state == Offline && !r.stopInSleep
  {
    ChangesAreNext(c, m, r);
  }

  /** A pass calls tick exactly when it finds the collector live or stale, once, and a good
      tick's time is kept. */
  lemma PassTicks(c: Config, m: Machine, r: Round)
    ensures var t := Step(c, m, r).machine;
            && t.ticks == m.ticks + (if (m.state == Live || m.state == Stale) && c.hasTick then [r.tickOk] else [])
            && t.lastUpdateMs == if (m.state == Live || m.state == Stale) && c.hasTick && r.tickOk then r.after
                                 else m.lastUpdateMs
  {
    Joined(m.ticks, [], []);
  }

  /** The passes come in time: none finds the last good tick more than three intervals back. */
  predicate Punctual(c: Config, last: U64, rounds: seq<Round>)
    decreases |rounds|
  {
    rounds == [] ||
    ((last == 0 || Elapsed(rounds[0].now, last) <= c.intervalMs * 3)
     && Punctual(c, rounds[0].after, rounds[1..]))
  }

  /** A live collector whose ticks succeed stays live without any change of state exactly as
      long as its passes come in time. */
  lemma {:induction false} QuietIffPunctual(c: Config, m: Machine, rounds: seq<Round>)
    requires m.state == Live && c.hasTick
    requires forall i :: 0 <= i < |rounds| ==> !rounds[i].stop && rounds[i].tickOk
    ensures var u := Loop(c, m, rounds).machine;
            && u.state == Live && u.ticks == m.ticks + seq(|rounds|, _ => true)
            && |m.changes| <= |u.changes|
            && (u.changes == m.changes <==> Punctual(c, m.lastUpdateMs, rounds))
    decreases |rounds|
  {
    if rounds == [] {
      assert seq(0, _ => true) == [];
    } else {
      var t := Step(c, m, rounds[0]).machine;
      GoodPass(c, m, rounds[0]);
      QuietIffPunctual(c, t, rounds[1..]);
      assert [true] + seq(|rounds| - 1, _ => true) == seq(|rounds|, _ => true);
      assert t.ticks + seq(|rounds| - 1, _ => true) == m.ticks + ([true] + seq(|rounds| - 1, _ => true));
    }
  }

  lemma GoodPass(c: Config, m: Machine, r: Round)
    requires m.state == Live && c.hasTick && r.tickOk
    ensures var o := Step(c, m, r);
            && !o.exited && o.machine.state == Live && o.machine.lastUpdateMs == r.after
            && o.machine.ticks == m.ticks + [true]
            && o.machine.changes == m.changes + if GoesStale(c, m, r.now) then [Stale, Live] else []
  {
    assert m.changes + [Stale] + [Live] == m.changes + [Stale, Live];
  }

  /** A collector that went offline and came back without a good tick goes offline again on
      its next failed tick: connecting does not clear the count. */
  lemma ReconnectDoesNotForgive(c: Config, m: Machine, back: seq<Round>, r: Round)
    requires Counted(m) && m.state == Offline && Trailing(m.ticks) >= 3 && |m.ticks| < TWO_32 - 1
    requires |back| == 3 && forall i :: 0 <= i < 3 ==> !back[i].stop && !back[i].stopInSleep && back[i].connectOk
    requires c.hasTick && !r.tickOk
    ensures var m' := Loop(c, m, back).machine;
            m'.state == Live && Offline in Changes(c, m', r)
  {
    var d := Step(c, Step(c, Step(c, m, back[0]).machine, back[1]).machine, back[2]).machine;
    LoopOf3(c, m, back);
    assert back[3..] == [];
    assert Loop(c, d, []) == Outcome(d, false);
    ReconnectKeepsCounters(c, m, back[0], back[1], back[2]);
    NextFailureIsOutage(c, d, r);
  }

  lemma NextFailureIsOutage(c: Config, m: Machine, r: Round)
    requires Counted(m) && MakesTick(c, m) && !r.tickOk
    requires 3 <= Trailing(m.ticks) && |m.ticks| < TWO_32 - 1
    ensures Offline in Changes(c, m, r)
  {
    TickCounts(m.ticks, false);
    CountsUpToWidth(Trailing(m.ticks) + 1);
    OfflineIff(c, m, r);
  }

  lemma ReconnectKeepsCounters(c: Config, m: Machine, r0: Round, r1: Round, r2: Round)
    requires m.state == Offline && !r0.stopInSleep && !r1.stopInSleep && r2.connectOk
    ensures var d := Step(c, Step(c, Step(c, m, r0).machine, r1).machine, r2).machine;
            && d.state == Live && d.ticks == m.ticks && d.collectCount == m.collectCount
            && d.errorCount == m.errorCount && d.consecutiveErrors == m.consecutiveErrors
  {
    var a := Step(c, m, r0).machine;
    var b := Step(c, a, r1).machine;
    assert a.state == Waiting && b.state == Connecting;
  }

  lemma LoopOf3(c: Config, m: Machine, rounds: seq<Round>)
    requires |rounds| >= 3 && forall i :: 0 <= i < 3 ==> !rounds[i].stop && !rounds[i].stopInSleep
    ensures var a := Step(c, m, rounds[0]).machine;
            var b := Step(c, a, rounds[1]).machine;
            var d := Step(c, b, rounds[2]).machine;
            Loop(c, m, rounds) == Loop(c, d, rounds[3..])
  {
    var a := Step(c, m, rounds[0]).machine;
    var b := Step(c, a, rounds[1]).machine;
    assert rounds[1..][1..] == rounds[2..] && rounds[2..][1..] == rounds[3..];
    assert Loop(c, m, rounds) == Loop(c, a, rounds[1..]);
    assert Loop(c, a, rounds[1..]) == Loop(c, b, rounds[2..]);
  }

  predicate Healthy(r: Round) {
    !r.stop && !r.stopInSleep && r.connectOk && r.tickOk
  }

  lemma {:induction false} HealthyStaysLive(c: Config, m: Machine, rounds: seq<Round>)
    requires m.state == Live && c.hasTick && forall i :: 0 <= i < |rounds| ==> Healthy(rounds[i])
    ensures Loop(c, m, rounds).machine.state == Live && !Loop(c, m, rounds).exited
    decreases |rounds|
  {
    if rounds != [] {
      var o := Step(c, m, rounds[0]);
      assert o.machine.state == Live;
      HealthyStaysLive(c, o.machine, rounds[1..]);
    }
  }

  /** Recovery: from any state, three passes in which everything works make a collector live,
      and it stays live as long as everything works. */
  lemma Recovers(c: Config, m: Machine, rounds: seq<Round>)
    requires c.hasTick && |rounds| >= 3 && forall i :: 0 <= i < |rounds| ==> Healthy(rounds[i])
    ensures Loop(c, m, rounds).machine.state == Live && !Loop(c, m, rounds).exited
  {
    var d := ThreePasses(c, m, rounds[0], rounds[1], rounds[2]);
    LoopOf3(c, m, rounds);
    HealthyStaysLive(c, d, rounds[3..]);
  }

  lemma ThreePasses(c: Config, m: Machine, r0: Round, r1: Round, r2: Round) returns (d: Machine)
    requires c.hasTick && Healthy(r0) && Healthy(r1) && Healthy(r2)
    ensures d == Step(c, Step(c, Step(c, m, r0).machine, r1).machine, r2).machine && d.state == Live
  {
    var a := Step(c, m, r0).machine;
    HealthyPass(c, m, r0, a);
    var b := Step(c, a, r1).machine;
    HealthyPass(c, a, r1, b);
    d := Step(c, b, r2).machine;
    HealthyPass(c, b, r2, d);
  }

  /** Where a pass in which everything works leads. */
  lemma HealthyPass(c: Config, m: Machine, r: Round, u: Machine)
    requires c.hasTick && Healthy(r) && u == Step(c, m, r).machine
    ensures u.state == match m.state
                       case Offline => Waiting
                       case Waiting => Connecting
                       case _ => Live
  {
  }

  // ---------------------------------------------------------------- sleeping

  /** collector_sleep_ms: whether it was cut short, and how long it slept. `flags` is the stop
      flag at each look. */
  datatype Slept = Slept(stopped: bool, ms: nat)

  const NAP_MS := 50

  function NapsFor(ms: nat): nat {
    (ms + 50 - 1) / 50
  }

  function SleepFrom(ms: nat, slept: nat, flags: seq<bool>): Slept
    requires slept <= ms && |flags| > NapsFor(ms - slept)
    decreases ms - slept
  {
    if slept == ms then Slept(flags[0], slept)
    else if flags[0] then Slept(true, slept)
    else SleepFrom(ms, slept + if ms - slept < NAP_MS then ms - slept else NAP_MS, flags[1..])
  }

  /** A sleep is cut short exactly when one of its looks finds the flag set, before the nap of
      that look; otherwise it lasts its whole time. */
  lemma {:induction false} SleepEndsAtFirstFlag(ms: nat, slept: nat, flags: seq<bool>, k: nat)
    requires slept <= ms && |flags| > NapsFor(ms - slept)
    requires k <= NapsFor(ms - slept) && forall i :: 0 <= i < k ==> !flags[i]
    requires k == NapsFor(ms - slept) || flags[k]
    ensures var s := SleepFrom(ms, slept, flags);
            && s.stopped == flags[k]
            && s.ms == if k == NapsFor(ms - slept) then ms else slept + 50 * k
    decreases ms - slept
  {
    if slept < ms && k > 0 {
      var next := slept + if ms - slept < 50 then ms - slept else 50;
      SleepEndsAtFirstFlag(ms, next, flags[1..], k - 1);
    }
  }
}
