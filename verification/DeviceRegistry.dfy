/** The registry as the program keeps it: an array of slots, a count, and devices whose
    reference counts it shares with its callers. */
module DeviceRegistry {
  import opened Devices
  import opened DeviceTable
  import R = Registry

  class Registry {
    const config: Config
    const slots: array<Slot>
    var count: nat
    ghost var devices: map<Name, Device>

    ghost function State(): R.State
      reads this, slots
    {
      R.State(slots[..], count)
    }

    ghost predicate Valid()
      reads this, slots
    {
      R.Inv(config, State(), devices)
    }

    constructor (config: Config)
      requires config.Valid()
      ensures Valid() && fresh(slots) && this.config == config && devices == map[]
    {
      this.config := config;
      slots := new Slot[config.Size()](_ => FREE_SLOT);
      count, devices := 0, map[];
      new;
      R.InitInv(config);
      assert slots[..] == R.Fresh(config).table;
    }

    /** Probes for a place to enter the name, as a registration does. */
    method Place(h: Hash, name: Name) returns (r: R.Placement)
      requires R.Shaped(config, slots[..])
      ensures r == R.PlaceFrom(config, slots[..], h, name, 0, -1)
    {
      var tomb := -1;
      for i := 0 to config.Size()
        invariant -1 <= tomb < slots.Length && (tomb >= 0 ==> !R.Live(slots[tomb]))
        invariant R.PlaceFrom(config, slots[..], h, name, i, tomb) == R.PlaceFrom(config, slots[..], h, name, 0, -1)
      {
        var idx := config.Index(h, i);
        if slots[idx].hash == SLOT_EMPTY {
          return R.At(if tomb >= 0 then tomb else idx);
        }
        if slots[idx].hash == SLOT_TOMBSTONE {
          if tomb < 0 {
            tomb := idx;
          }
        } else if slots[idx].hash == h && slots[idx].device.name == name {
          return R.Duplicate;
        }
      }
      return R.NoSlot;
    }

    /** Probes for the slot of a device, as a removal does; -1 if there is none. */
    method SlotOf(h: Hash, d: Device) returns (r: int)
      requires R.Shaped(config, slots[..])
      ensures r == R.RemoveFrom(config, slots[..], h, d, 0)
    {
      for i := 0 to config.Size()
        invariant R.RemoveFrom(config, slots[..], h, d, i) == R.RemoveFrom(config, slots[..], h, d, 0)
      {
        var idx := config.Index(h, i);
        if slots[idx].hash == SLOT_EMPTY {
          return -1;
        }
        if slots[idx].hash == h && slots[idx].device == d {
          return idx;
        }
      }
      return -1;
    }

    /** Probes for a name, as a lookup does; -1 if it is absent. */
    method SlotNamed(h: Hash, name: Name) returns (r: int)
      requires R.Shaped(config, slots[..])
      ensures r == R.FindFrom(config, slots[..], h, name, 0)
    {
      for i := 0 to config.Size()
        invariant R.FindFrom(config, slots[..], h, name, i) == R.FindFrom(config, slots[..], h, name, 0)
      {
        var idx := config.Index(h, i);
        if slots[idx].hash == SLOT_EMPTY {
          return -1;
        }
        if slots[idx].hash == SLOT_TOMBSTONE {
          continue;
        }
        if slots[idx].hash == h && slots[idx].device.name == name {
          return idx;
        }
      }
      return -1;
    }

    /** Writes the device into a free slot reachable from its home slot. */
    method Enter(d: Device, target: nat)
      requires Valid() && d.name !in devices
      requires target < slots.Length && !R.Live(slots[target])
      requires R.Reachable(config, slots[..], config.hashOf(d.name), target)
      modifies this`count, this`devices, slots
      ensures Valid() && devices == old(devices)[d.name := d]
      ensures R.EmptiesShrink(old(slots[..]), slots[..])
    {
      var s := Slot(config.hashOf(d.name), d);
      ghost var before := slots[..];
      R.InsertKeepsInv(config, State(), devices, d, target);
      slots[target] := s;
      assert slots[..] == before[target := s];
      count := count + 1;
      devices := devices[d.name := d];
    }

    /** The place for a registration, by the map. */
    method PlaceFor(name: Name) returns (r: R.Placement)
      requires Valid()
      ensures r.Duplicate? <==> name in devices
      ensures r.NoSlot? <==> name !in devices && !R.HasEmpty(slots[..])
      ensures r.At? ==> r.target < slots.Length && !R.Live(slots[r.target])
                        && R.Reachable(config, slots[..], config.hashOf(name), r.target)
    {
      R.PlaceMeetsMap(config, slots[..], devices, name);
      r := Place(config.hashOf(name), name);
    }

    /** The slot of a device, by the map; -1 if it is not the one registered under its name. */
    method SlotFor(d: Device) returns (r: int)
      requires Valid()
      ensures r >= 0 <==> d.name in devices && devices[d.name] == d
      ensures r >= 0 ==> r < slots.Length && R.Live(slots[r]) && slots[r].device == d
    {
      R.RemoveMeetsMap(config, slots[..], devices, d);
      r := SlotOf(config.hashOf(d.name), d);
    }

    /** Leaves a tombstone in a live slot. */
    method Leave(idx: nat)
      requires Valid() && idx < slots.Length && R.Live(slots[idx])
      modifies this`count, this`devices, slots
      ensures Valid() && devices == old(devices) - {old(slots[idx].device.name)}
      ensures R.EmptiesShrink(old(slots[..]), slots[..])
    {
      ghost var before := slots[..];
      ghost var name := slots[idx].device.name;
      R.DeleteKeepsInv(config, State(), devices, idx);
      slots[idx] := DELETED_SLOT;
      assert slots[..] == before[idx := DELETED_SLOT];
      count := count - 1;
      devices := devices - {name};
    }

    /** Adds the device under its name and takes a reference to it. */
    method Register(d: Device) returns (outcome: R.Outcome)
      requires Valid()
      modifies this`count, this`devices, slots, d`refCount
      ensures Valid()
      ensures outcome ==
              if |old(devices)| >= config.MaxLoad() then R.NoMemory
              else if d.name in old(devices) then R.Busy
              else if old(R.HasEmpty(slots[..])) then R.Success
              else R.NoMemory
      ensures devices == if outcome == R.Success then old(devices)[d.name := d] else old(devices)
      ensures d.refCount == old(d.refCount) + if outcome == R.Success then 1 else 0
      ensures R.EmptiesShrink(old(slots[..]), slots[..])
    {
      if count >= config.MaxLoad() {
        return R.NoMemory;
      }
      var place := PlaceFor(d.name);
      match place {
        case At(target) =>
          Enter(d, target);
          d.Ref();
          return R.Success;
        case Duplicate => return R.Busy;
        case NoSlot => return R.NoMemory;
      }
    }

    /** Removes the device if it is the one registered under its name, and gives the
        registry's reference back, which may tear the device down. */
    method Unregister(d: Device, stopLeaves: DeviceState)
      requires Valid()
      modifies this`count, this`devices, slots, d
      ensures Valid()
      ensures var registered := d.name in old(devices) && old(devices)[d.name] == d;
              && devices == (if registered then old(devices) - {d.name} else old(devices))
              && d.refCount == old(d.refCount) - (if registered then 1 else 0)
              && d.log == old(d.log) + (if registered && old(d.refCount) == 1
                                        then Teardown(d.hooks, old(d.state), stopLeaves) else [])
      ensures R.EmptiesShrink(old(slots[..]), slots[..])
    {
      var idx := SlotFor(d);
      if idx >= 0 {
        Leave(idx);
        d.Unref(stopLeaves);
      }
    }

    /** Looks the name up and takes a reference for the caller. */
    method Find(name: Name) returns (found: Device?)
      requires Valid()
      modifies devices.Values`refCount
      ensures Valid() && unchanged(this) && unchanged(slots)
      ensures found == if name in devices then devices[name] else null
      ensures forall d :: d in devices.Values ==> d.refCount == old(d.refCount) + if d == found then 1 else 0
    {
      R.FindMeetsMap(config, slots[..], devices, name);
      var idx := SlotNamed(config.hashOf(name), name);
      if idx < 0 {
        return null;
      }
      found := slots[idx].device;
      assert found in devices.Values;
      found.Ref();
    }

    /** Lists the devices in slot order, at most `max` of them, and takes a reference to
        each for the caller. */
    method List(max: int) returns (out: seq<Device>)
      requires Valid()
      modifies devices.Values`refCount
      ensures Valid() && unchanged(this) && unchanged(slots)
      ensures |out| == if max <= 0 then 0 else if max < count then max else count
      ensures out <= R.Listed(config, slots[..])
      ensures forall d :: d in devices.Values ==> d.refCount == old(d.refCount) + if d in out then 1 else 0
    {
      out := [];
      ghost var t := slots[..];
      assert t[..0] == [];
      var i := 0;
      while i < slots.Length && |out| < max
        invariant 0 <= i <= slots.Length
        invariant out == R.Listed(config, t[..i])
        invariant |out| <= if max <= 0 then 0 else max
        invariant forall d :: d in devices.Values ==> d.refCount == old(d.refCount) + if d in out then 1 else 0
      {
        R.ListedNext(config, t, devices, i);
        if R.Live(slots[i]) {
          var d := slots[i].device;
          d.Ref();
          out := out + [d];
        }
        i := i + 1;
      }
      assert i == slots.Length ==> t[..i] == t;
      R.ListedPrefix(config, t, i);
      assert i == slots.Length ==> t[..i] == t;
    }
  }
}
