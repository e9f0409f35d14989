/** Hardware devices: their reference count and their one-time teardown. */
module Devices {
  type Name = string

  datatype DeviceState = Closed | Open | Active | Faulted

  /** What the last release does to the device, one event per call it makes. */
  datatype Event = Stop | Close | Cleanup | Destroy | Free {
    function Rank(): nat {
      match this
      case Stop => 0
      case Close => 1
      case Cleanup => 2
      case Destroy => 3
      case Free => 4
    }
  }

  /** Which of the optional functions a device supplies. */
  datatype Hooks = Hooks(stop: bool, close: bool, cleanup: bool)

  /** The state after the stop hook had its chance; the hook leaves the device in any state. */
  function AfterStop(hooks: Hooks, state: DeviceState, stopLeaves: DeviceState): DeviceState {
    if state == Active && hooks.stop then stopLeaves else state
  }

  function Teardown(hooks: Hooks, state: DeviceState, stopLeaves: DeviceState): seq<Event> {
    (if state == Active && hooks.stop then [Stop] else [])
    + (if AfterStop(hooks, state, stopLeaves) != Closed && hooks.close then [Close] else [])
    + (if hooks.cleanup then [Cleanup] else [])
    + [Destroy, Free]
  }

  /** Teardown stops, closes, cleans up and destroys in that order, each at most once; it
      never closes a closed device and never leaves an open one with a close hook open. */
  lemma TeardownInOrder(hooks: Hooks, state: DeviceState, stopLeaves: DeviceState)
    ensures var log := Teardown(hooks, state, stopLeaves);
            && (forall i, j :: 0 <= i < j < |log| ==> log[i].Rank() < log[j].Rank())
            && 2 <= |log| && log[|log| - 2..] == [Destroy, Free]
            && (Stop in log <==> state == Active && hooks.stop)
            && (Cleanup in log <==> hooks.cleanup)
            && (Close in log <==> hooks.close && (if Stop in log then stopLeaves else state) != Closed)
  {
    var log := Teardown(hooks, state, stopLeaves);
    var a := if state == Active && hooks.stop then [Stop] else [];
    var b := if AfterStop(hooks, state, stopLeaves) != Closed && hooks.close then [Close] else [];
    var c := if hooks.cleanup then [Cleanup] else [];
    assert log == a + b + c + [Destroy, Free];
    assert |a + b + c| == |log| - 2;
    assert Stop in log <==> Stop in a;
    assert Close in log <==> Close in b;
    assert Cleanup in log <==> Cleanup in c;
  }

  class Device {
    const name: Name
    const hooks: Hooks
    var refCount: int
    var state: DeviceState
    ghost var log: seq<Event>

    /** A new device; its creator holds the first reference. */
    constructor (name: Name, hooks: Hooks)
      ensures this.name == name && this.hooks == hooks
      ensures refCount == 1 && state == Closed && log == []
    {
      this.name, this.hooks := name, hooks;
      refCount, state, log := 1, Closed, [];
    }

    method Ref()
      modifies this`refCount
      ensures refCount == old(refCount) + 1
    {
      refCount := refCount + 1;
    }

    /** Gives one reference back; only the last one tears the device down. */
    method Unref(stopLeaves: DeviceState)
      modifies this
      ensures refCount == old(refCount) - 1
      ensures log == old(log) + if old(refCount) == 1 then Teardown(hooks, old(state), stopLeaves) else []
      ensures old(refCount) != 1 ==> state == old(state)
    {
      refCount := refCount - 1;
      if refCount != 0 {
        return;
      }
      ghost var start := log;
      if state == Active && hooks.stop {
        state := stopLeaves;
        log := log + [Stop];
      }
      ghost var stopped := log;
      if state != Closed && hooks.close {
        state := Closed;
        log := log + [Close];
      }
      if hooks.cleanup {
        log := log + [Cleanup];
      }
      log := log + [Destroy, Free];
    }
  }
}
