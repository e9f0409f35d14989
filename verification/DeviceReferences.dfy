/** Reference counting over every run: threads that each release what they took, against
    the registry's table. Registry operations run under the registry lock and counter
    updates are atomic, so any interleaving of threads is a sequence of these events. */
module DeviceReferences {
  import opened Devices
  import opened DeviceTable
  import R = Registry

  /** `held` counts the references in the callers' hands, `refs` is the stored counter,
      and `teardowns` counts how often the teardown of a device has run. */
  datatype State = State(
    registry: R.State,
    refs: map<Device, int>,
    held: map<Device, nat>,
    teardowns: map<Device, nat>)

  /** An unregistration has two parts: the entry leaves the table under the lock, which
      puts the table's reference in the caller's hands, and a Release later gives it back. A
      listing goes through the slots under the lock and takes one reference at each live
      one; other threads' Retain and Release may come in between. */
  datatype Event =
    | Create(device: Device)
    | Register(device: Device)
    | Unlink(device: Device)
    | Find(name: Name)
    | ListSlot(slot: nat)
    | Retain(device: Device)
    | Release(device: Device)

  ghost predicate Registered(m: map<Name, Device>, d: Device) {
    d.name in m && m[d.name] == d
  }

  /** Only a holder passes a device to the registry or gives a reference back. */
  ghost predicate Enabled(c: Config, s: State, e: Event) {
    && R.Shaped(c, s.registry.table)
    && match e
       case Create(d) => d !in s.refs
       case Find(_) => true
       case ListSlot(_) => true
       case _ => Holds(s, e.device)
  }

  ghost predicate Holds(s: State, d: Device) {
    d in s.held && d in s.refs && d in s.teardowns && s.held[d] > 0
  }

  /** One more reference to d, in a caller's hands. */
  function Take(s: State, d: Device): State
    requires d in s.refs && d in s.held
  {
    s.(refs := s.refs[d := s.refs[d] + 1], held := s.held[d := s.held[d] + 1])
  }

  function TakeKnown(s: State, d: Device): State {
    if d in s.refs && d in s.held then Take(s, d) else s
  }

  ghost function Apply(c: Config, s: State, e: Event): State
    requires Enabled(c, s, e)
  {
    match e
    case Create(d) => s.(refs := s.refs[d := 1], held := s.held[d := 1], teardowns := s.teardowns[d := 0])
    case Register(d) =>
      var (reg, outcome) := R.Step(c, s.registry, R.Register(d));
      if outcome == R.Success then s.(registry := reg, refs := s.refs[d := s.refs[d] + 1]) else s
    case Unlink(d) =>
      var (reg, _) := R.Step(c, s.registry, R.Unregister(d));
      if reg != s.registry then s.(registry := reg, held := s.held[d := s.held[d] + 1]) else s
    case Find(name) =>
      var (_, outcome) := R.Step(c, s.registry, R.Find(name));
      if outcome.Found? then TakeKnown(s, outcome.device) else s
    case ListSlot(j) =>
      if j < |s.registry.table| && R.Live(s.registry.table[j]) then TakeKnown(s, s.registry.table[j].device) else s
    case Retain(d) => Take(s, d)
    case Release(d) =>
      var torn := if s.refs[d] == 1 then 1 else 0;
      State(s.registry, s.refs[d := s.refs[d] - 1], s.held[d := s.held[d] - 1],
            s.teardowns[d := s.teardowns[d] + torn])
  }

  /** Every counter is the references held plus the table's, and only a zero counter has
      seen a teardown. */
  ghost predicate Counted(s: State, m: map<Name, Device>) {
    && s.refs.Keys == s.held.Keys == s.teardowns.Keys
    && (forall n :: n in m ==> m[n].name == n && m[n] in s.refs)
    && (forall d :: d in s.refs ==>
          && s.refs[d] == s.held[d] + (if Registered(m, d) then 1 else 0)
          && s.teardowns[d] == (if s.refs[d] == 0 then 1 else 0))
  }

  ghost predicate Inv(c: Config, s: State, m: map<Name, Device>) {
    R.Inv(c, s.registry, m) && Counted(s, m)
  }

  lemma CountedAfterRegister(s: State, m: map<Name, Device>, d: Device, reg: R.State)
    requires Counted(s, m) && Holds(s, d) && d.name !in m
    ensures Counted(s.(registry := reg, refs := s.refs[d := s.refs[d] + 1]), m[d.name := d])
  {
    var refs := s.refs[d := s.refs[d] + 1];
    assert refs.Keys == s.refs.Keys;
    forall e | e in s.refs
      ensures refs[e] == s.held[e] + (if Registered(m[d.name := d], e) then 1 else 0)
    {
      assert Registered(m[d.name := d], e) <==> e == d || Registered(m, e);
    }
  }

  lemma CountedAfterUnlink(s: State, m: map<Name, Device>, d: Device, reg: R.State)
    requires Counted(s, m) && Holds(s, d) && Registered(m, d)
    ensures Counted(s.(registry := reg, held := s.held[d := s.held[d] + 1]), m - {d.name})
  {
  }

  lemma RegisterKeepsInv(c: Config, s: State, m: map<Name, Device>, d: Device) returns (m': map<Name, Device>)
    requires Inv(c, s, m) && Enabled(c, s, Register(d))
    ensures Inv(c, Apply(c, s, Register(d)), m')
  {
    m' := m;
    R.RegisterRefines(c, s.registry, m, d);
    var (reg, outcome) := R.Step(c, s.registry, R.Register(d));
    if outcome == R.Success {
      CountedAfterRegister(s, m, d, reg);
      m' := m[d.name := d];
    }
  }

  lemma UnlinkKeepsInv(c: Config, s: State, m: map<Name, Device>, d: Device) returns (m': map<Name, Device>)
    requires Inv(c, s, m) && Enabled(c, s, Unlink(d))
    ensures Inv(c, Apply(c, s, Unlink(d)), m')
  {
    m' := m;
    R.UnregisterRefines(c, s.registry, m, d);
    R.RemoveMeetsMap(c, s.registry.table, m, d);
    var (reg, _) := R.Step(c, s.registry, R.Unregister(d));
    if Registered(m, d) {
      CountedAfterUnlink(s, m, d, reg);
      m' := m - {d.name};
      assert reg.count != s.registry.count;
    }
  }

  lemma FindKeepsInv(c: Config, s: State, m: map<Name, Device>, name: Name)
    requires Inv(c, s, m) && Enabled(c, s, Find(name))
    ensures Inv(c, Apply(c, s, Find(name)), m)
  {
    R.FindMeetsMap(c, s.registry.table, m, name);
  }

  lemma CreateKeepsInv(c: Config, s: State, m: map<Name, Device>, d: Device)
    requires Inv(c, s, m) && Enabled(c, s, Create(d))
    ensures Inv(c, Apply(c, s, Create(d)), m)
  {
    assert !Registered(m, d);
  }

  lemma RetainKeepsInv(c: Config, s: State, m: map<Name, Device>, d: Device)
    requires Inv(c, s, m) && Enabled(c, s, Retain(d))
    ensures Inv(c, Apply(c, s, Retain(d)), m)
  {
  }

  lemma ReleaseKeepsInv(c: Config, s: State, m: map<Name, Device>, d: Device)
    requires Inv(c, s, m) && Enabled(c, s, Release(d))
    ensures Inv(c, Apply(c, s, Release(d)), m)
  {
  }

  lemma ListKeepsInv(c: Config, s: State, m: map<Name, Device>, j: nat)
    requires Inv(c, s, m) && Enabled(c, s, ListSlot(j))
    ensures Inv(c, Apply(c, s, ListSlot(j)), m)
  {
    if j < |s.registry.table| && R.Live(s.registry.table[j]) {
      assert Registered(m, s.registry.table[j].device);
    }
  }

  lemma StepKeepsInv(c: Config, s: State, m: map<Name, Device>, e: Event) returns (m': map<Name, Device>)
    requires Inv(c, s, m) && Enabled(c, s, e)
    ensures Inv(c, Apply(c, s, e), m')
  {
    m' := m;
    match e
    case Register(d) => m' := RegisterKeepsInv(c, s, m, d);
    case Unlink(d) => m' := UnlinkKeepsInv(c, s, m, d);
    case Find(name) => FindKeepsInv(c, s, m, name);
    case ListSlot(j) => ListKeepsInv(c, s, m, j);
    case Create(d) => CreateKeepsInv(c, s, m, d);
    case Retain(d) => RetainKeepsInv(c, s, m, d);
    case Release(d) => ReleaseKeepsInv(c, s, m, d);
  }

  /** The references in callers' hands are those of s, but for n more of d. */
  ghost predicate Hands(s: State, u: State, d: Device, n: int) {
    && d in u.held && u.held[d] == (if d in s.held then s.held[d] else 0) + n
    && u.held.Keys == s.held.Keys + {d}
    && forall e :: e in s.held && e != d ==> u.held[e] == s.held[e]
  }

  lemma TakeHands(s: State, d: Device)
    requires d in s.refs && d in s.held
    ensures Hands(s, Take(s, d), d, 1)
  {
  }

  lemma FindHandsOut(c: Config, s: State, m: map<Name, Device>, name: Name)
    requires Inv(c, s, m) && Enabled(c, s, Find(name))
    ensures var u := Apply(c, s, Find(name)); if name in m then Hands(s, u, m[name], 1) else u == s
  {
    R.FindMeetsMap(c, s.registry.table, m, name);
    if name in m {
      TakeHands(s, m[name]);
    }
  }

  lemma ListHandsOut(c: Config, s: State, m: map<Name, Device>, j: nat)
    requires Inv(c, s, m) && Enabled(c, s, ListSlot(j))
    ensures var u := Apply(c, s, ListSlot(j));
            if j < |s.registry.table| && R.Live(s.registry.table[j])
            then s.registry.table[j].device != null && Hands(s, u, s.registry.table[j].device, 1) else u == s
  {
    if j < |s.registry.table| && R.Live(s.registry.table[j]) {
      assert Registered(m, s.registry.table[j].device);
      TakeHands(s, s.registry.table[j].device);
    }
  }

  lemma UnlinkIs(c: Config, s: State, m: map<Name, Device>, d: Device)
    requires Inv(c, s, m) && Enabled(c, s, Unlink(d))
    ensures var reg := R.Step(c, s.registry, R.Unregister(d)).0;
            Apply(c, s, Unlink(d)) ==
            if Registered(m, d) then s.(registry := reg, held := s.held[d := s.held[d] + 1]) else s
  {
    R.UnregisterRefines(c, s.registry, m, d);
    R.RemoveMeetsMap(c, s.registry.table, m, d);
    var (reg, _) := R.Step(c, s.registry, R.Unregister(d));
    if Registered(m, d) {
      assert reg.count != s.registry.count;
    }
  }

  lemma UnlinkHandsOver(c: Config, s: State, m: map<Name, Device>, d: Device)
    requires Inv(c, s, m) && Enabled(c, s, Unlink(d))
    ensures var u := Apply(c, s, Unlink(d));
            if Registered(m, d) then Hands(s, u, d, 1) else u == s
  {
    UnlinkIs(c, s, m, d);
  }

  /** What each event does to the references in callers' hands: a creation, a lookup that finds
      its device, a listing at a live slot and a retain hand one out; a release takes one back;
      an unregistration hands over the table's, exactly if the device is in the table; a
      registration leaves its caller's. */
  lemma EventHandsOut(c: Config, s: State, m: map<Name, Device>, e: Event)
    requires Inv(c, s, m) && Enabled(c, s, e)
    ensures var u := Apply(c, s, e);
            match e
            case Create(d) => Hands(s, u, d, 1)
            case Register(_) => u.held == s.held
            case Unlink(d) => if Registered(m, d) then Hands(s, u, d, 1) else u == s
            case Find(name) => if name in m then Hands(s, u, m[name], 1) else u == s
            case ListSlot(j) =>
              if j < |s.registry.table| && R.Live(s.registry.table[j])
              then s.registry.table[j].device != null && Hands(s, u, s.registry.table[j].device, 1) else u == s
            case Retain(d) => Hands(s, u, d, 1)
            case Release(d) => Hands(s, u, d, -1)
  {
    match e
    case Unlink(d) => UnlinkHandsOver(c, s, m, d);
    case Find(name) => FindHandsOut(c, s, m, name);
    case ListSlot(j) => ListHandsOut(c, s, m, j);
    case Retain(d) => TakeHands(s, d);
    case _ =>
  }

  ghost predicate Run(c: Config, s: State, es: seq<Event>, t: State)
    decreases |es|
  {
    if es == [] then s == t else Enabled(c, s, es[0]) && Run(c, Apply(c, s, es[0]), es[1..], t)
  }

  function Init(c: Config): State
    requires c.Valid()
  {
    State(R.Fresh(c), map[], map[], map[])
  }

  lemma {:induction false} RunKeepsInv(c: Config, s: State, m: map<Name, Device>, es: seq<Event>, t: State)
    returns (m': map<Name, Device>)
    requires Inv(c, s, m) && Run(c, s, es, t)
    ensures Inv(c, t, m')
    decreases |es|
  {
    m' := m;
    if es != [] {
      var m1 := StepKeepsInv(c, s, m, es[0]);
      m' := RunKeepsInv(c, Apply(c, s, es[0]), m1, es[1..], t);
    }
  }

  /** In every run the counter of a device is the references held plus one while it is
      registered; its teardown has run once if that sum is zero and never otherwise; so a
      lookup and a listing hand out only devices that are alive. */
  lemma CountsAreExact(c: Config, es: seq<Event>, t: State) returns (m: map<Name, Device>)
    requires c.Valid() && Run(c, Init(c), es, t)
    ensures R.Inv(c, t.registry, m)
    ensures t.refs.Keys == t.held.Keys == t.teardowns.Keys
    ensures forall d :: d in t.refs ==>
              && t.refs[d] == t.held[d] + (if Registered(m, d) then 1 else 0)
              && t.teardowns[d] == (if t.held[d] == 0 && !Registered(m, d) then 1 else 0)
    ensures forall name :: R.Step(c, t.registry, R.Find(name)).1.Found? ==>
              var d := R.Step(c, t.registry, R.Find(name)).1.device;
              d in t.refs && t.refs[d] >= 1 && t.teardowns[d] == 0
    ensures forall j :: 0 <= j < |t.registry.table| && R.Live(t.registry.table[j]) ==>
              var d := t.registry.table[j].device;
              d != null && d in t.refs && t.refs[d] >= 1 && t.teardowns[d] == 0
  {
    R.InitInv(c);
    m := RunKeepsInv(c, Init(c), map[], es, t);
    forall name
      ensures R.Step(c, t.registry, R.Find(name)).1.Found? ==>
                var d := R.Step(c, t.registry, R.Find(name)).1.device;
                d in t.refs && t.refs[d] >= 1 && t.teardowns[d] == 0
    {
      R.FindMeetsMap(c, t.registry.table, m, name);
    }
    forall j | 0 <= j < |t.registry.table| && R.Live(t.registry.table[j])
      ensures var d := t.registry.table[j].device;
              d != null && d in t.refs && t.refs[d] >= 1 && t.teardowns[d] == 0
    {
      assert Registered(m, t.registry.table[j].device);
    }
  }
}
