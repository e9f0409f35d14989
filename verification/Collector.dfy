/** The collector thread: its loop over the states, and the sleep it uses. */
module Collector {
  import opened CollectorModel
  import opened Words

  class Collector {
    const config: Config
    var state: State
    var lastUpdateMs: U64
    var collectCount: U64
    var errorCount: U64
    var consecutiveErrors: U32
    ghost var disconnects: nat
    ghost var ticks: seq<bool>
    ghost var changes: seq<State>

    ghost function Value(): Machine
      reads this
    {
      Machine(state, lastUpdateMs, collectCount, errorCount, consecutiveErrors, disconnects, ticks, changes)
    }

    /** A collector as collector_register leaves it. */
    constructor (c: Config)
      ensures Value() == REGISTERED && config == c
    {
      config := c;
      state, lastUpdateMs, collectCount, errorCount, consecutiveErrors := Waiting, 0, 0, 0, 0;
      disconnects, ticks, changes := 0, [], [];
    }

    /** collector_set_state */
    method SetState(s: State)
      modifies this
      ensures Value() == CollectorModel.SetState(old(Value()), s)
    {
      state := s;
      changes := changes + [s];
    }

    method Disconnect()
      modifies this
      ensures Value() == CollectorModel.Disconnect(config, old(Value()))
    {
      if config.hasDisconnect {
        disconnects := disconnects + 1;
      }
    }

    /** The LIVE and STALE case of the thread's loop. */
    method Collect(r: Round)
      modifies this
      ensures Value() == CollectorModel.Collect(config, old(Value()), r)
    {
      if state == Live && lastUpdateMs != 0 && Elapsed(r.now, lastUpdateMs) > config.intervalMs * STALE_AFTER {
        SetState(Stale);
      }
      if config.hasTick {
        ticks := ticks + [r.tickOk];
        if r.tickOk {
          lastUpdateMs := r.after;
          collectCount := Next64(collectCount);
          consecutiveErrors := 0;
          if state == Stale {
            SetState(Live);
          }
        } else {
          errorCount := Next64(errorCount);
          consecutiveErrors := Next32(consecutiveErrors);
          if consecutiveErrors >= OFFLINE_AFTER {
            Disconnect();
            SetState(Offline);
          }
        }
      }
    }

    /** The switch on the state; `done` is the jump out of the loop. */
    method Pass(r: Round) returns (done: bool)
      modifies this
      ensures Outcome(Value(), done) == Step(config, old(Value()), r)
    {
      done := false;
      match state {
        case Waiting =>
          if r.stopInSleep {
            return true;
          }
          SetState(Connecting);
        case Connecting | Syncing =>
          if config.hasConnect {
            if r.connectOk {
              SetState(Live);
            } else if r.stopInSleep {
              return true;
            }
          } else {
            SetState(Live);
          }
        case Live | Stale =>
          Collect(r);
        case Offline =>
          Disconnect();
          if r.stopInSleep {
            return true;
          }
          SetState(Waiting);
      }
    }

    /** collector_thread over the passes that the rounds describe; `exited` is false when they
        end before the thread does. */
    method Thread(stopped: bool, rounds: seq<Round>) returns (exited: bool)
      modifies this
      ensures Outcome(Value(), exited) == CollectorModel.Thread(config, old(Value()), stopped, rounds)
    {
      exited := stopped;
      if !stopped {
        SetState(Connecting);
        ghost var first := Value();
        var k := 0;
        while k < |rounds| && !exited
          invariant k <= |rounds|
          invariant exited ==> Loop(config, first, rounds) == Outcome(Value(), true)
          invariant !exited ==> Loop(config, first, rounds) == Loop(config, Value(), rounds[k..])
          decreases |rounds| - k, !exited
        {
          if rounds[k].stop {
            exited := true;
          } else {
            exited := Pass(rounds[k]);
            k := k + 1;
          }
        }
      }
      if exited {
        Disconnect();
        SetState(Offline);
      }
    }
  }

  /** collector_sleep_ms, with the stop flag as each look finds it. */
  method Sleep(ms: U32, flags: seq<bool>) returns (stopped: bool, slept: nat)
    requires |flags| > NapsFor(ms)
    ensures Slept(stopped, slept) == SleepFrom(ms, 0, flags)
  {
    var done: nat, look: nat := 0, 0;
    while done < ms
      invariant done <= ms && |flags| - look > NapsFor(ms - done)
      invariant SleepFrom(ms, done, flags[look..]) == SleepFrom(ms, 0, flags)
    {
      if flags[look] {
        return true, done;
      }
      var chunk := if ms - done < NAP_MS then ms - done else NAP_MS;
      done := done + chunk;
      look := look + 1;
    }
    return flags[look], done;
  }
}
