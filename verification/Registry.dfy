/** The registry operations on a table value, and their agreement with a finite map from
    name to device over every run. */
module Registry {
  import opened Devices
  import opened DeviceTable

  datatype Outcome = Success | Busy | NoMemory | Found(device: Device) | NotFound | Done

  datatype State = State(table: Table, count: nat)

  datatype Op = Register(device: Device) | Unregister(device: Device) | Find(name: Name)

  predicate Live(s: Slot) {
    s.hash != SLOT_EMPTY && s.hash != SLOT_TOMBSTONE
  }

  ghost predicate HasEmpty(t: Table) {
    exists j :: 0 <= j < |t| && t[j].hash == SLOT_EMPTY
  }

  /** A live slot holds a device under its own hash; any other slot holds none. */
  ghost predicate SlotOk(c: Config, s: Slot) {
    if Live(s) then s.device != null && s.hash == c.hashOf(s.device.name) else s.device == null
  }

  ghost predicate Shaped(c: Config, t: Table) {
    c.Valid() && |t| == c.Size() && forall j :: 0 <= j < |t| ==> SlotOk(c, t[j])
  }

  /** No empty slot precedes slot j on the probe path of hash h. */
  ghost predicate Reachable(c: Config, t: Table, h: nat, j: nat)
    requires |t| == c.Size() && j < |t|
  {
    forall i: nat :: i < Dist(c, h, j) ==> t[c.Index(h, i)].hash != SLOT_EMPTY
  }

  function LiveSlots(t: Table): nat {
    if t == [] then 0 else LiveSlots(t[..|t| - 1]) + if Live(t[|t| - 1]) then 1 else 0
  }

  /** The devices in the table, in slot order. */
  function Listed(c: Config, t: Table): (ds: seq<Device>)
    requires forall j :: 0 <= j < |t| ==> SlotOk(c, t[j])
    ensures |ds| == LiveSlots(t)
  {
    if t == [] then []
    else
      var last := t[|t| - 1];
      if Live(last) then
        assert SlotOk(c, last);
        var d: Device := last.device;
        Listed(c, t[..|t| - 1]) + [d]
      else Listed(c, t[..|t| - 1])
  }

  lemma {:induction false} ListedPrefix(c: Config, t: Table, i: nat)
    requires i <= |t| && forall j :: 0 <= j < |t| ==> SlotOk(c, t[j])
    ensures Listed(c, t[..i]) <= Listed(c, t)
    decreases |t| - i
  {
    if i == |t| {
      assert t[..i] == t;
    } else {
      assert t[..i + 1][..i] == t[..i];
      ListedPrefix(c, t, i + 1);
    }
  }

  /** The table represents the map m: every entry is reachable from its home slot, and
      entries and map agree, with no name stored twice. */
  ghost predicate Represents(c: Config, t: Table, m: map<Name, Device>) {
    && Shaped(c, t)
    && (forall j :: 0 <= j < |t| && Live(t[j]) ==> Reachable(c, t, t[j].hash, j))
    && (forall j :: 0 <= j < |t| && Live(t[j]) ==>
          t[j].device.name in m && m[t[j].device.name] == t[j].device)
    && (forall i, j :: 0 <= i < j < |t| && Live(t[i]) && Live(t[j]) ==> t[i].device.name != t[j].device.name)
    && (forall n :: n in m ==> exists j :: 0 <= j < |t| && Live(t[j]) && t[j].device.name == n)
  }

  /** The devices listed are those in live slots. */
  lemma {:induction false} ListedIffLive(c: Config, t: Table, d: Device)
    requires forall j :: 0 <= j < |t| ==> SlotOk(c, t[j])
    ensures d in Listed(c, t) <==> exists j :: 0 <= j < |t| && Live(t[j]) && t[j].device == d
    decreases |t|
  {
    if t != [] {
      var front := t[..|t| - 1];
      ListedIffLive(c, front, d);
      assert forall j :: 0 <= j < |front| ==> front[j] == t[j];
    }
  }

  /** Scanning one more slot lists a device that is in the map and was not listed before. */
  lemma ListedNext(c: Config, t: Table, m: map<Name, Device>, i: nat)
    requires Represents(c, t, m) && i < |t|
    ensures !Live(t[i]) ==> Listed(c, t[..i + 1]) == Listed(c, t[..i])
    ensures Live(t[i]) ==>
              && Listed(c, t[..i + 1]) == Listed(c, t[..i]) + [t[i].device]
              && t[i].device in m.Values && t[i].device !in Listed(c, t[..i])
  {
    assert t[..i + 1][..i] == t[..i];
    if Live(t[i]) {
      ListedIffLive(c, t[..i], t[i].device);
      assert m[t[i].device.name] == t[i].device;
    }
  }

  ghost predicate Inv(c: Config, s: State, m: map<Name, Device>) {
    Represents(c, s.table, m) && s.count == |m| == LiveSlots(s.table)
  }

  // ---------------------------------------------------------------- the probes

  /** The slot at which a lookup that has made i probes will find the name, or -1. */
  function FindFrom(c: Config, t: Table, h: Hash, name: Name, i: nat): (r: int)
    requires Shaped(c, t) && i <= c.Size()
    ensures -1 <= r < |t|
    ensures r >= 0 ==> Live(t[r]) && t[r].device.name == name
    decreases c.Size() - i
  {
    if i == c.Size() then -1
    else
      var s := t[c.Index(h, i)];
      if s.hash == SLOT_EMPTY then -1
      else if s.hash == SLOT_TOMBSTONE then FindFrom(c, t, h, name, i + 1)
      else if s.hash == h && s.device.name == name then c.Index(h, i)
      else FindFrom(c, t, h, name, i + 1)
  }

  /** The slot at which a removal that has made i probes will find the device, or -1. */
  function RemoveFrom(c: Config, t: Table, h: Hash, d: Device, i: nat): (r: int)
    requires Shaped(c, t) && i <= c.Size()
    ensures -1 <= r < |t|
    ensures r >= 0 ==> Live(t[r]) && t[r].device == d
    decreases c.Size() - i
  {
    if i == c.Size() then -1
    else
      var s := t[c.Index(h, i)];
      if s.hash == SLOT_EMPTY then -1
      else if s.hash == h && s.device == d then c.Index(h, i)
      else RemoveFrom(c, t, h, d, i + 1)
  }

  datatype Placement = At(target: nat) | Duplicate | NoSlot

  /** Where an insertion that has made i probes, and passed a first tombstone at `tomb`
      unless that is -1, will put the entry. */
  function PlaceFrom(c: Config, t: Table, h: Hash, name: Name, i: nat, tomb: int): (r: Placement)
    requires Shaped(c, t) && i <= c.Size() && -1 <= tomb < |t|
    requires tomb >= 0 ==> !Live(t[tomb])
    ensures r.At? ==> r.target < |t| && !Live(t[r.target])
    decreases c.Size() - i
  {
    if i == c.Size() then NoSlot
    else
      var idx := c.Index(h, i);
      var s := t[idx];
      if s.hash == SLOT_EMPTY then At(if tomb >= 0 then tomb else idx)
      else if s.hash == SLOT_TOMBSTONE then PlaceFrom(c, t, h, name, i + 1, if tomb < 0 then idx else tomb)
      else if s.hash == h && s.device.name == name then Duplicate
      else PlaceFrom(c, t, h, name, i + 1, tomb)
  }

  /** The registry after one operation, and what the operation returns. */
  function Step(c: Config, s: State, op: Op): (State, Outcome)
    requires Shaped(c, s.table)
  {
    match op
    case Register(d) =>
      if s.count >= c.MaxLoad() then (s, NoMemory)
      else (
        match PlaceFrom(c, s.table, c.hashOf(d.name), d.name, 0, -1)
        case At(j) => (State(s.table[j := Slot(c.hashOf(d.name), d)], s.count + 1), Success)
        case Duplicate => (s, Busy)
        case NoSlot => (s, NoMemory))
    case Unregister(d) =>
      var j := RemoveFrom(c, s.table, c.hashOf(d.name), d, 0);
      if j < 0 then (s, Done)
      else (State(s.table[j := DELETED_SLOT], if s.count > 0 then s.count - 1 else 0), Done)
    case Find(name) =>
      var j := FindFrom(c, s.table, c.hashOf(name), name, 0);
      (s, if j < 0 then NotFound else Found(s.table[j].device))
  }

  /** The same operation on the map; `full` says that no slot was ever left unused. */
  ghost function MapStep(c: Config, m: map<Name, Device>, full: bool, op: Op): (map<Name, Device>, Outcome) {
    match op
    case Register(d) =>
      if |m| >= c.MaxLoad() then (m, NoMemory)
      else if d.name in m then (m, Busy)
      else if full then (m, NoMemory)
      else (m[d.name := d], Success)
    case Unregister(d) =>
      (if d.name in m && m[d.name] == d then m - {d.name} else m, Done)
    case Find(name) =>
      (m, if name in m then Found(m[name]) else NotFound)
  }

  // ---------------------------------------------------------------- probes meet the map

  lemma {:induction false} FindHits(c: Config, t: Table, h: Hash, name: Name, i: nat, d: nat)
    requires Shaped(c, t) && i <= d < c.Size()
    requires forall k: nat :: k < d ==> t[c.Index(h, k)].hash != SLOT_EMPTY
    requires t[c.Index(h, d)].hash == h && t[c.Index(h, d)].device.name == name
    ensures FindFrom(c, t, h, name, i) >= 0
    decreases d - i
  {
    if i < d {
      FindHits(c, t, h, name, i + 1, d);
    }
  }

  lemma {:induction false} RemoveHits(c: Config, t: Table, h: Hash, dev: Device, i: nat, d: nat)
    requires Shaped(c, t) && i <= d < c.Size()
    requires forall k: nat :: k < d ==> t[c.Index(h, k)].hash != SLOT_EMPTY
    requires t[c.Index(h, d)].hash == h && t[c.Index(h, d)].device == dev
    ensures RemoveFrom(c, t, h, dev, i) >= 0
    decreases d - i
  {
    if i < d {
      RemoveHits(c, t, h, dev, i + 1, d);
    }
  }

  lemma {:induction false} PlaceHits(c: Config, t: Table, h: Hash, name: Name, i: nat, tomb: int, d: nat)
    requires Shaped(c, t) && i <= d < c.Size() && -1 <= tomb < |t| && (tomb >= 0 ==> !Live(t[tomb]))
    requires forall k: nat :: k < d ==> t[c.Index(h, k)].hash != SLOT_EMPTY
    requires t[c.Index(h, d)].hash == h && t[c.Index(h, d)].device.name == name
    ensures PlaceFrom(c, t, h, name, i, tomb) == Duplicate
    decreases d - i
  {
    if i < d {
      var idx := c.Index(h, i);
      PlaceHits(c, t, h, name, i + 1, if t[idx].hash == SLOT_TOMBSTONE && tomb < 0 then idx else tomb, d);
    }
  }

  /** With the name absent, an insertion ends at the first empty slot, or fails for want of
      one; the slot it picks has no empty slot before it on the probe path. */
  lemma {:induction false} PlaceMisses(c: Config, t: Table, h: Hash, name: Name, i: nat, tomb: int)
    requires Shaped(c, t) && i <= c.Size() && -1 <= tomb < |t| && (tomb >= 0 ==> !Live(t[tomb]))
    requires forall j :: 0 <= j < |t| && Live(t[j]) ==> t[j].device.name != name
    requires forall k: nat :: k < i ==> t[c.Index(h, k)].hash != SLOT_EMPTY
    requires tomb >= 0 ==> Reachable(c, t, h, tomb)
    ensures var r := PlaceFrom(c, t, h, name, i, tomb);
            && !r.Duplicate?
            && (r.At? ==> Reachable(c, t, h, r.target))
            && (r.NoSlot? <==> forall k: nat :: k < c.Size() ==> t[c.Index(h, k)].hash != SLOT_EMPTY)
    decreases c.Size() - i
  {
    if i < c.Size() {
      var idx := c.Index(h, i);
      ProbeVisitsOnce(c, h, idx);
      assert Reachable(c, t, h, idx);
      if t[idx].hash != SLOT_EMPTY {
        PlaceMisses(c, t, h, name, i + 1, if t[idx].hash == SLOT_TOMBSTONE && tomb < 0 then idx else tomb);
      }
    }
  }

  /** A lookup finds a name exactly when the map holds it, and then finds its device. */
  lemma FindMeetsMap(c: Config, t: Table, m: map<Name, Device>, name: Name)
    requires Represents(c, t, m)
    ensures var j := FindFrom(c, t, c.hashOf(name), name, 0);
            if name in m then j >= 0 && t[j].device == m[name] else j < 0
  {
    if name in m {
      var j :| 0 <= j < |t| && Live(t[j]) && t[j].device.name == name;
      ProbeVisitsOnce(c, t[j].hash, j);
      FindHits(c, t, c.hashOf(name), name, 0, Dist(c, t[j].hash, j));
    }
  }

  lemma RemoveMeetsMap(c: Config, t: Table, m: map<Name, Device>, d: Device)
    requires Represents(c, t, m)
    ensures RemoveFrom(c, t, c.hashOf(d.name), d, 0) >= 0 <==> d.name in m && m[d.name] == d
  {
    if d.name in m && m[d.name] == d {
      var j :| 0 <= j < |t| && Live(t[j]) && t[j].device.name == d.name;
      ProbeVisitsOnce(c, t[j].hash, j);
      RemoveHits(c, t, c.hashOf(d.name), d, 0, Dist(c, t[j].hash, j));
    }
  }

  /** All slots probed before number d are in use. */
  ghost predicate LiveBefore(c: Config, t: Table, h: nat, d: nat)
    requires |t| == c.Size()
  {
    forall k: nat :: k < d ==> Live(t[c.Index(h, k)])
  }

  /** The first free slot that i probes have passed: none, or the tombstone remembered. */
  ghost predicate Passed(c: Config, t: Table, h: nat, i: nat, tomb: int)
    requires |t| == c.Size()
  {
    if tomb < 0 then LiveBefore(c, t, h, i) else tomb < |t| && LiveBefore(c, t, h, Dist(c, h, tomb))
  }

  /** An insertion picks the first slot on its path that is free, be it empty or a tombstone. */
  lemma {:induction false} PlaceIsFirstFree(c: Config, t: Table, h: Hash, name: Name, i: nat, tomb: int)
    requires Shaped(c, t) && i <= c.Size() && -1 <= tomb < |t| && (tomb >= 0 ==> !Live(t[tomb]))
    requires Passed(c, t, h, i, tomb)
    ensures var r := PlaceFrom(c, t, h, name, i, tomb);
            r.At? ==> LiveBefore(c, t, h, Dist(c, h, r.target))
    decreases c.Size() - i
  {
    if i < c.Size() {
      var idx := c.Index(h, i);
      DistOfIndex(c, h, i);
      if t[idx].hash != SLOT_EMPTY {
        PlaceIsFirstFree(c, t, h, name, i + 1, if t[idx].hash == SLOT_TOMBSTONE && tomb < 0 then idx else tomb);
      }
    }
  }

  lemma DistOfIndex(c: Config, h: nat, i: nat)
    requires c.Valid() && i < c.Size()
    ensures Dist(c, h, c.Index(h, i)) == i
  {
    ProbeVisitsOnce(c, h, c.Index(h, i));
  }

  lemma PlaceMeetsMap(c: Config, t: Table, m: map<Name, Device>, name: Name)
    requires Represents(c, t, m)
    ensures var r := PlaceFrom(c, t, c.hashOf(name), name, 0, -1);
            && (r.Duplicate? <==> name in m)
            && (r.NoSlot? <==> name !in m && !HasEmpty(t))
            && (r.At? ==> Reachable(c, t, c.hashOf(name), r.target)
                          && LiveBefore(c, t, c.hashOf(name), Dist(c, c.hashOf(name), r.target)))
  {
    var h := c.hashOf(name);
    PlaceIsFirstFree(c, t, h, name, 0, -1);
    if name in m {
      var j :| 0 <= j < |t| && Live(t[j]) && t[j].device.name == name;
      ProbeVisitsOnce(c, t[j].hash, j);
      PlaceHits(c, t, h, name, 0, -1, Dist(c, t[j].hash, j));
    } else {
      PlaceMisses(c, t, h, name, 0, -1);
      if HasEmpty(t) {
        var e :| 0 <= e < |t| && t[e].hash == SLOT_EMPTY;
        ProbeVisitsOnce(c, h, e);
      }
    }
  }

  // ---------------------------------------------------------------- one step, every run

  lemma {:induction false} LiveSlotsUpdate(t: Table, j: nat, s: Slot)
    requires j < |t|
    ensures LiveSlots(t[j := s]) == LiveSlots(t) - (if Live(t[j]) then 1 else 0) + (if Live(s) then 1 else 0)
  {
    var last := |t| - 1;
    var u := t[j := s];
    if j == last {
      assert u[..last] == t[..last];
    } else {
      assert u[..last] == t[..last][j := s];
      LiveSlotsUpdate(t[..last], j, s);
    }
  }

  /** Entering an absent name into a reachable free slot adds it to the map. */
  lemma InsertRefines(c: Config, t: Table, m: map<Name, Device>, d: Device, j: nat)
    requires Represents(c, t, m) && d.name !in m
    requires j < |t| && !Live(t[j]) && Reachable(c, t, c.hashOf(d.name), j)
    ensures Represents(c, t[j := Slot(c.hashOf(d.name), d)], m[d.name := d])
  {
    var u := t[j := Slot(c.hashOf(d.name), d)];
    forall i | 0 <= i < |u| && Live(u[i])
      ensures Reachable(c, u, u[i].hash, i)
    {
      assert Reachable(c, t, u[i].hash, i);
    }
    forall n | n == d.name || n in m
      ensures exists i :: 0 <= i < |u| && Live(u[i]) && u[i].device.name == n
    {
      if n == d.name {
        assert Live(u[j]);
      } else {
        var i :| 0 <= i < |t| && Live(t[i]) && t[i].device.name == n;
        assert Live(u[i]);
      }
    }
  }

  /** Burying an entry under a tombstone removes it from the map and hides no other. */
  lemma DeleteRefines(c: Config, t: Table, m: map<Name, Device>, j: nat)
    requires Represents(c, t, m) && j < |t| && Live(t[j])
    ensures Represents(c, t[j := DELETED_SLOT], m - {t[j].device.name})
  {
    var name := t[j].device.name;
    var u := t[j := DELETED_SLOT];
    forall i | 0 <= i < |u| && Live(u[i])
      ensures Reachable(c, u, u[i].hash, i)
    {
      assert Reachable(c, t, t[i].hash, i);
    }
    forall n | n in m - {name}
      ensures exists i :: 0 <= i < |u| && Live(u[i]) && u[i].device.name == n
    {
      var i :| 0 <= i < |t| && Live(t[i]) && t[i].device.name == n;
      assert Live(u[i]);
    }
  }

  /** No operation turns a used slot back into an empty one. */
  ghost predicate EmptiesShrink(t: Table, u: Table) {
    |u| == |t| && forall j :: 0 <= j < |t| && u[j].hash == SLOT_EMPTY ==> t[j].hash == SLOT_EMPTY
  }

  lemma InsertKeepsInv(c: Config, s: State, m: map<Name, Device>, d: Device, j: nat)
    requires Inv(c, s, m) && d.name !in m
    requires j < |s.table| && !Live(s.table[j]) && Reachable(c, s.table, c.hashOf(d.name), j)
    ensures Inv(c, State(s.table[j := Slot(c.hashOf(d.name), d)], s.count + 1), m[d.name := d])
  {
    InsertRefines(c, s.table, m, d, j);
    LiveSlotsUpdate(s.table, j, Slot(c.hashOf(d.name), d));
  }

  lemma RegisterRefines(c: Config, s: State, m: map<Name, Device>, d: Device)
    requires Inv(c, s, m)
    ensures Step(c, s, Register(d)).1 == MapStep(c, m, !HasEmpty(s.table), Register(d)).1
    ensures Inv(c, Step(c, s, Register(d)).0, MapStep(c, m, !HasEmpty(s.table), Register(d)).0)
    ensures EmptiesShrink(s.table, Step(c, s, Register(d)).0.table)
  {
    PlaceMeetsMap(c, s.table, m, d.name);
    var r := PlaceFrom(c, s.table, c.hashOf(d.name), d.name, 0, -1);
    if r.At? && s.count < c.MaxLoad() {
      InsertKeepsInv(c, s, m, d, r.target);
    }
  }

  lemma DeleteKeepsInv(c: Config, s: State, m: map<Name, Device>, j: nat)
    requires Inv(c, s, m) && j < |s.table| && Live(s.table[j])
    ensures s.count > 0 && s.table[j].device.name in m
    ensures Inv(c, State(s.table[j := DELETED_SLOT], s.count - 1), m - {s.table[j].device.name})
    ensures EmptiesShrink(s.table, s.table[j := DELETED_SLOT])
  {
    DeleteRefines(c, s.table, m, j);
    LiveSlotsUpdate(s.table, j, DELETED_SLOT);
  }

  lemma UnregisterRefines(c: Config, s: State, m: map<Name, Device>, d: Device)
    requires Inv(c, s, m)
    ensures Inv(c, Step(c, s, Unregister(d)).0, MapStep(c, m, !HasEmpty(s.table), Unregister(d)).0)
    ensures EmptiesShrink(s.table, Step(c, s, Unregister(d)).0.table)
  {
    RemoveMeetsMap(c, s.table, m, d);
    var j := RemoveFrom(c, s.table, c.hashOf(d.name), d, 0);
    if j >= 0 {
      DeleteKeepsInv(c, s, m, j);
    }
  }

  /** Each operation on the table returns what the map operation returns and leaves the
      table representing the map it leaves. In particular a registration succeeds exactly
      below the load limit, with the name absent and an empty slot left. */
  lemma StepRefinesMap(c: Config, s: State, m: map<Name, Device>, op: Op)
    requires Inv(c, s, m)
    ensures Step(c, s, op).1 == MapStep(c, m, !HasEmpty(s.table), op).1
    ensures Inv(c, Step(c, s, op).0, MapStep(c, m, !HasEmpty(s.table), op).0)
    ensures EmptiesShrink(s.table, Step(c, s, op).0.table)
  {
    match op
    case Register(d) => RegisterRefines(c, s, m, d);
    case Unregister(d) => UnregisterRefines(c, s, m, d);
    case Find(name) => FindMeetsMap(c, s.table, m, name);
  }

  /** The zero-initialised registry. */
  function Fresh(c: Config): (s: State)
    requires c.Valid()
    ensures Shaped(c, s.table)
  {
    State(seq(c.Size(), _ => FREE_SLOT), 0)
  }

  lemma {:induction false} NoLiveSlots(t: Table)
    requires forall j :: 0 <= j < |t| ==> !Live(t[j])
    ensures LiveSlots(t) == 0
  {
    if t != [] {
      NoLiveSlots(t[..|t| - 1]);
    }
  }

  lemma InitInv(c: Config)
    requires c.Valid()
    ensures Inv(c, Fresh(c), map[])
  {
    NoLiveSlots(Fresh(c).table);
  }

  /** The state after a sequence of operations. */
  ghost function Run(c: Config, s: State, ops: seq<Op>): (t: State)
    requires Shaped(c, s.table)
    ensures Shaped(c, t.table)
    decreases |ops|
  {
    if ops == [] then s else Run(c, Step(c, s, ops[0]).0, ops[1..])
  }

  /** Table and map return the same outcomes all along the run. */
  ghost predicate Agrees(c: Config, s: State, m: map<Name, Device>, ops: seq<Op>)
    requires Shaped(c, s.table)
    decreases |ops|
  {
    ops == [] ||
    var full := !HasEmpty(s.table);
    && Step(c, s, ops[0]).1 == MapStep(c, m, full, ops[0]).1
    && Agrees(c, Step(c, s, ops[0]).0, MapStep(c, m, full, ops[0]).0, ops[1..])
  }

  lemma {:induction false} RunRefinesMapFrom(c: Config, s: State, m: map<Name, Device>, ops: seq<Op>)
    returns (m': map<Name, Device>)
    requires Inv(c, s, m)
    ensures Agrees(c, s, m, ops)
    ensures Inv(c, Run(c, s, ops), m')
    ensures EmptiesShrink(s.table, Run(c, s, ops).table)
    decreases |ops|
  {
    m' := m;
    if ops != [] {
      StepRefinesMap(c, s, m, ops[0]);
      m' := RunRefinesMapFrom(c, Step(c, s, ops[0]).0, MapStep(c, m, !HasEmpty(s.table), ops[0]).0, ops[1..]);
    }
  }

  /** Over every sequence of operations from the empty registry the probed table behaves as
      a finite map, and its count is the number of entries and of live slots. */
  lemma RunRefinesMap(c: Config, ops: seq<Op>) returns (m: map<Name, Device>)
    requires c.Valid()
    ensures Agrees(c, Fresh(c), map[], ops)
    ensures Inv(c, Run(c, Fresh(c), ops), m)
  {
    InitInv(c);
    m := RunRefinesMapFrom(c, Fresh(c), map[], ops);
  }

  lemma {:induction false} RunSplits(c: Config, s: State, before: seq<Op>, after: seq<Op>)
    requires Shaped(c, s.table)
    ensures Run(c, s, before + after) == Run(c, Run(c, s, before), after)
    decreases |before|
  {
    if before == [] {
      assert before + after == after;
    } else {
      assert (before + after)[1..] == before[1..] + after;
      RunSplits(c, Step(c, s, before[0]).0, before[1..], after);
    }
  }

  /** At no point of a run is a slot empty that was in use at an earlier point of it. */
  lemma EmptiesNeverGrow(c: Config, before: seq<Op>, after: seq<Op>)
    requires c.Valid()
    ensures EmptiesShrink(Run(c, Fresh(c), before).table, Run(c, Fresh(c), before + after).table)
  {
    var m := RunRefinesMap(c, before);
    var m' := RunRefinesMapFrom(c, Run(c, Fresh(c), before), m, after);
    RunSplits(c, Fresh(c), before, after);
  }

  // ---------------------------------------------------------------- exhaustion by tombstones

  lemma NoneEmptyStays(t: Table, u: Table)
    requires EmptiesShrink(t, u) && !HasEmpty(t)
    ensures !HasEmpty(u)
  {
  }

  /** Once every slot has been used no registration ever succeeds again, however few
      devices are registered. */
  lemma ExhaustedForever(c: Config, s: State, m: map<Name, Device>, ops: seq<Op>, d: Device)
    requires Inv(c, s, m) && !HasEmpty(s.table)
    ensures var outcome := Step(c, Run(c, s, ops), Register(d)).1; outcome == Busy || outcome == NoMemory
  {
    var m' := RunRefinesMapFrom(c, s, m, ops);
    var u := Run(c, s, ops);
    NoneEmptyStays(s.table, u.table);
    RegisterRefines(c, u, m', d);
  }

  /** Registering and unregistering each device of a list in turn. */
  function Churn(devices: seq<Device>): seq<Op> {
    if devices == [] then []
    else [Register(devices[0]), Unregister(devices[0])] + Churn(devices[1..])
  }

  /** The registry when the first i slots have been used once and freed. */
  function Worn(c: Config, i: nat): (s: State)
    requires c.Valid()
    ensures Shaped(c, s.table)
  {
    State(seq(c.Size(), j => if j < i then DELETED_SLOT else FREE_SLOT), 0)
  }

  lemma ChurnOne(c: Config, i: nat, d: Device)
    requires c.Valid() && c.bits >= 1 && i < c.Size() && c.hashOf(d.name) % c.Size() == i
    ensures Step(c, Step(c, Worn(c, i), Register(d)).0, Unregister(d)).0 == Worn(c, i + 1)
  {
    var h := c.hashOf(d.name);
    IndexIsMod(c, h, 0);
    assert c.MaxLoad() >= 1;
    var s := Step(c, Worn(c, i), Register(d)).0;
    assert s == State(Worn(c, i).table[i := Slot(h, d)], 1);
    assert Worn(c, i + 1).table == s.table[i := DELETED_SLOT];
  }

  lemma {:induction false} ChurnFrom(c: Config, devices: seq<Device>, i: nat)
    requires c.Valid() && c.bits >= 1 && i + |devices| == c.Size()
    requires forall k :: 0 <= k < |devices| ==> c.hashOf(devices[k].name) % c.Size() == i + k
    ensures Run(c, Worn(c, i), Churn(devices)) == Worn(c, c.Size())
    decreases |devices|
  {
    if devices != [] {
      var d := devices[0];
      RunTwo(c, Worn(c, i), Register(d), Unregister(d), Churn(devices[1..]));
      ChurnOne(c, i, d);
      ChurnFrom(c, devices[1..], i + 1);
    }
  }

  lemma RunTwo(c: Config, s: State, a: Op, b: Op, rest: seq<Op>)
    requires Shaped(c, s.table)
    ensures Run(c, s, [a, b] + rest) == Run(c, Step(c, Step(c, s, a).0, b).0, rest)
  {
    var ops := [a, b] + rest;
    assert ops[1..] == [b] + rest && ops[1..][1..] == rest;
    assert Run(c, Step(c, s, a).0, ops[1..]) == Run(c, Step(c, Step(c, s, a).0, b).0, rest);
  }

  /** Devices with distinct home slots, each registered and unregistered once, leave a
      registry that is empty and yet refuses every later registration. */
  lemma ChurnExhausts(c: Config, devices: seq<Device>, d: Device)
    requires c.Valid() && c.bits >= 1 && |devices| == c.Size()
    requires forall k :: 0 <= k < |devices| ==> c.hashOf(devices[k].name) % c.Size() == k
    ensures Run(c, Fresh(c), Churn(devices)).count == 0
    ensures Step(c, Run(c, Fresh(c), Churn(devices)), Register(d)).1 == NoMemory
  {
    assert Fresh(c) == Worn(c, 0);
    ChurnFrom(c, devices, 0);
    var m := RunRefinesMap(c, Churn(devices));
    var u := Run(c, Fresh(c), Churn(devices));
    RegisterRefines(c, u, m, d);
    assert |m| == 0;
  }

  /** So does it happen to the program's own table: one device named by each of 128
      single-byte names, registered and unregistered in turn, use it up. */
  lemma HalTableExhausts(devices: seq<Device>, d: Device)
    requires |devices| == 128 && forall k :: 0 <= k < 128 ==> devices[k].name == NameAt(k)
    ensures Run(HAL_TABLE, Fresh(HAL_TABLE), Churn(devices)).count == 0
    ensures Step(HAL_TABLE, Run(HAL_TABLE, Fresh(HAL_TABLE), Churn(devices)), Register(d)).1 == NoMemory
  {
    HalTableIsValid();
    forall k | 0 <= k < |devices|
      ensures HAL_TABLE.hashOf(devices[k].name) % HAL_TABLE.Size() == k
    {
      NameAtHasHome(k, devices[k].name);
    }
    ChurnExhausts(HAL_TABLE, devices, d);
  }
}
