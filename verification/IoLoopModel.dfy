/** The io_uring event loop as a transition system: who owns each in-flight request record
    and its buffer, over any order of completions and any results of the callbacks. */
module IoLoopModel {

  datatype OpType = READ | WRITE | ACCEPT | TIMEOUT | CANCEL | POLL

  datatype OpDesc = OpDesc(fd: int, opType: OpType, bufSize: nat, hasCallback: bool)

  /** Whose request a record stands for. */
  datatype Target = Wakeup | AdHocWrite(fd: int, hasCallback: bool) | Op(index: nat)

  datatype Buffer = NoBuffer | FromHeap | FromPool

  datatype Pending = Pending(target: Target, buffer: Buffer)

  /** One call of a completion callback: for which request, with what arguments, and what it
      returned. `data` is the buffer handed over, NoBuffer for a null pointer, and `length`
      the number of its bytes that count. */
  datatype Fired = Fired(request: nat, target: Target, fd: int, result: int, rc: int, data: Buffer, length: nat)

  /** `live` are the records allocated and not freed, `inFlight` those the kernel holds,
      `buffers` the data buffers allocated and not freed, named by their record. */
  datatype State = State(
    ops: seq<OpDesc>,
    live: map<nat, Pending>, inFlight: set<nat>, buffers: map<nat, Buffer>,
    issued: nat, freed: set<nat>,
    log: seq<Fired>)

  /** What a callback may do to the loop while a run is in progress. */
  datatype Effect = SubmitWrite(fd: int, length: nat, hasCallback: bool) | Unregister(fd: int)

  /** A completion: which request, its result, what the callback returns and does, whether
      the loop is still to run afterwards, and whether the pool has a block for a new read. */
  datatype Completion = Completion(
    id: nat, result: int, rc: int, effects: seq<Effect>, running: bool, poolGives: bool)

  const ETIME := 62
  const EINVAL := 22

  // ---------------------------------------------------------------- requests

  function Submit(s: State, target: Target, buffer: Buffer): State {
    var id := s.issued;
    s.(live := s.live[id := Pending(target, buffer)],
       inFlight := s.inFlight + {id},
       buffers := if buffer == NoBuffer then s.buffers else s.buffers[id := buffer],
       issued := id + 1)
  }

  function SubmitRead(s: State, i: nat, poolGives: bool): State
    requires i < |s.ops|
  {
    if s.ops[i].fd < 0 || s.ops[i].bufSize == 0 then s
    else Submit(s, Op(i), if poolGives then FromPool else FromHeap)
  }

  function SubmitPoll(s: State, i: nat): State
    requires i < |s.ops|
  {
    if s.ops[i].fd < 0 then s else Submit(s, Op(i), NoBuffer)
  }

  function SubmitTimeout(s: State, i: nat): State
    requires i < |s.ops|
  {
    Submit(s, Op(i), NoBuffer)
  }

  /** Frees a record: it must be allocated and out of the kernel's hands. */
  function FreeRecord(s: State, id: nat): State
    requires id in s.live && id !in s.inFlight
  {
    s.(live := s.live - {id}, freed := s.freed + {id})
  }

  /** Frees the buffer of a record: it must be allocated. */
  function FreeBuffer(s: State, id: nat, buffer: Buffer): State
    requires buffer != NoBuffer ==> id in s.buffers && s.buffers[id] == buffer
  {
    if buffer == NoBuffer then s else s.(buffers := s.buffers - {id})
  }

  // ---------------------------------------------------------------- callbacks

  /** The first op from i on with the descriptor; |ops| if there is none. */
  function FirstWith(ops: seq<OpDesc>, fd: int, i: nat): (r: nat)
    requires i <= |ops|
    ensures i <= r <= |ops| && (r < |ops| ==> ops[r].fd == fd)
    ensures forall k :: i <= k < r ==> ops[k].fd != fd
    decreases |ops| - i
  {
    if i == |ops| || ops[i].fd == fd then i else FirstWith(ops, fd, i + 1)
  }

  function Perform(s: State, e: Effect): State {
    match e
    case SubmitWrite(fd, n, cb) => if fd < 0 || n == 0 then s else Submit(s, AdHocWrite(fd, cb), FromHeap)
    case Unregister(fd) =>
      if fd < 0 then s
      else
        var i := FirstWith(s.ops, fd, 0);
        if i == |s.ops| then s else s.(ops := s.ops[i := s.ops[i].(fd := -1)])
  }

  function PerformAll(s: State, es: seq<Effect>): State {
    if es == [] then s else Perform(PerformAll(s, es[..|es| - 1]), es[|es| - 1])
  }

  /** The call for a completion, with its request's buffer as it is at the time of the call. */
  function Firing(s: State, target: Target, fd: int, c: Completion, gives: bool): Fired {
    Fired(c.id, target, fd, c.result, c.rc,
          if gives && c.id in s.buffers then s.buffers[c.id] else NoBuffer,
          if gives && c.result > 0 then c.result else 0)
  }

  function Call(s: State, f: Fired, c: Completion): State {
    PerformAll(s.(log := s.log + [f]), c.effects)
  }

  // ---------------------------------------------------------------- completions

  /** The kernel hands the request back. */
  function Seen(s: State, id: nat): State {
    s.(inFlight := s.inFlight - {id})
  }

  ghost predicate Shaped(s: State) {
    && s.live.Keys == s.inFlight
    && (forall id :: id in s.live ==> id < s.issued)
    && (forall id :: id in s.buffers <==> id in s.live && s.live[id].buffer != NoBuffer)
    && (forall id :: id in s.buffers ==> s.buffers[id] == s.live[id].buffer)
  }

  /** Callbacks only add requests and clear descriptors. */
  lemma {:induction false} EffectsKeep(s: State, es: seq<Effect>)
    ensures var u := PerformAll(s, es);
            && |u.ops| == |s.ops| && u.freed == s.freed && u.log == s.log && s.issued <= u.issued
            && (forall i :: 0 <= i < |s.ops| ==> u.ops[i] == s.ops[i] || u.ops[i] == s.ops[i].(fd := -1))
    ensures var u := PerformAll(s, es);
            forall id :: id < s.issued ==>
              && (id in u.live <==> id in s.live) && (id in s.live ==> u.live[id] == s.live[id])
              && (id in u.inFlight <==> id in s.inFlight)
              && (id in u.buffers <==> id in s.buffers) && (id in s.buffers ==> u.buffers[id] == s.buffers[id])
  {
    if es != [] {
      EffectsKeep(s, es[..|es| - 1]);
    }
  }

  function ProcessWakeup(s: State, c: Completion): State
    requires Shaped(s) && c.id in s.inFlight
  {
    var p := s.live[c.id];
    var s1 := FreeRecord(FreeBuffer(Seen(s, c.id), c.id, p.buffer), c.id);
    if c.running then Submit(s1, Wakeup, FromHeap) else s1
  }

  function ProcessWrite(s: State, c: Completion): State
    requires Shaped(s) && c.id in s.inFlight && s.live[c.id].target.AdHocWrite?
  {
    var p := s.live[c.id];
    var seen := Seen(s, c.id);
    var f := Firing(seen, p.target, p.target.fd, c, true);
    var s1 := if p.target.hasCallback then Call(seen, f, c) else seen;
    assert Keeps(seen, s1, c.id) by { CallKeeps(seen, f, c); }
    FreeRecord(FreeBuffer(s1, c.id, p.buffer), c.id)
  }

  /** u still has record and buffer of `id` as s does. */
  ghost predicate Keeps(s: State, u: State, id: nat) {
    && (id in u.live <==> id in s.live) && (id in u.inFlight <==> id in s.inFlight)
    && (id in u.buffers <==> id in s.buffers) && (id in s.buffers ==> u.buffers[id] == s.buffers[id])
    && |u.ops| == |s.ops|
  }

  lemma CallKeeps(s: State, f: Fired, c: Completion)
    requires c.id < s.issued
    ensures Keeps(s, Call(s, f, c), c.id)
  {
    EffectsKeep(s.(log := s.log + [f]), c.effects);
  }

  function ProcessTimeout(s: State, i: nat, c: Completion): State
    requires Shaped(s) && c.id in s.inFlight && i < |s.ops| && s.live[c.id].buffer == NoBuffer
  {
    var d := s.ops[i];
    var calls := d.hasCallback && (c.result == -ETIME || c.result == 0);
    var seen := Seen(s, c.id);
    var f := Firing(seen, Op(i), d.fd, c, false);
    var s1 := if calls then Call(seen, f, c) else seen;
    assert Keeps(seen, s1, c.id) by { CallKeeps(seen, f, c); }
    var s2 := FreeRecord(s1, c.id);
    if c.running && (calls ==> c.rc == 0) && s2.ops[i].fd >= -1 then SubmitTimeout(s2, i) else s2
  }

  /** The record is freed first, and the callback called next; a read that brought something
      hands over its buffer. */
  function FreeAndCall(s: State, i: nat, c: Completion): (u: State)
    requires Shaped(s) && c.id in s.inFlight && i < |s.ops|
    ensures Keeps(FreeRecord(Seen(s, c.id), c.id), u, c.id)
  {
    var s1 := FreeRecord(Seen(s, c.id), c.id);
    var f := Firing(s1, Op(i), s.ops[i].fd, c, s.ops[i].opType == READ && c.result > 0);
    CallKeeps(s1, f, c);
    if s.ops[i].hasCallback then Call(s1, f, c) else s1
  }

  function ProcessRead(s: State, i: nat, c: Completion): State
    requires Shaped(s) && c.id in s.inFlight && i < |s.ops|
  {
    var s1 := FreeBuffer(FreeAndCall(s, i, c), c.id, s.live[c.id].buffer);
    if c.running && c.result > 0 && (s.ops[i].hasCallback ==> c.rc == 0) && s1.ops[i].fd >= 0
    then SubmitRead(s1, i, c.poolGives) else s1
  }

  function ProcessPoll(s: State, i: nat, c: Completion): State
    requires Shaped(s) && c.id in s.inFlight && i < |s.ops|
  {
    var s1 := FreeAndCall(s, i, c);
    if c.running && c.result > 0 && (s.ops[i].hasCallback ==> c.rc == 0) && s1.ops[i].fd >= 0
    then SubmitPoll(s1, i) else s1
  }

  /** process_cqe: one completion, dispatched on whose request it is. */
  function Process(s: State, c: Completion): State
    requires Inv(s, {}, {}) && c.id in s.inFlight
  {
    match s.live[c.id].target
    case Wakeup => ProcessWakeup(s, c)
    case AdHocWrite(_, _) => ProcessWrite(s, c)
    case Op(i) =>
      if s.ops[i].opType == TIMEOUT then ProcessTimeout(s, i, c)
      else if s.ops[i].opType == READ then ProcessRead(s, i, c)
      else ProcessPoll(s, i, c)
  }

  // ---------------------------------------------------------------- the invariant

  /** A call after which the op is not armed again. */
  predicate Final(t: OpType, f: Fired) {
    f.rc != 0 || (t != TIMEOUT && f.result <= 0)
  }

  ghost predicate InFlight(s: State, target: Target) {
    exists id :: id in s.inFlight && id in s.live && s.live[id].target == target
  }

  /** No call so far has ended the target's requests. */
  ghost predicate NotEnded(s: State, target: Target) {
    target.Op? ==>
      target.index < |s.ops| &&
      forall k :: 0 <= k < |s.log| && s.log[k].target == target ==> !Final(s.ops[target.index].opType, s.log[k])
  }

  /** What a record of each kind looks like. */
  predicate Typed(ops: seq<OpDesc>, p: Pending) {
    match p.target
    case Wakeup => p.buffer == FromHeap
    case AdHocWrite(_, _) => p.buffer == FromHeap
    case Op(i) =>
      && i < |ops| && ops[i].opType in {READ, POLL, TIMEOUT}
      && (ops[i].opType == READ <==> p.buffer != NoBuffer)
  }

  /** Every record allocated is either freed or live, and live ones are in the kernel's
      hands but for `records`; a buffer is allocated for exactly the in-flight requests that
      need one, and for `buffers`. */
  ghost predicate Accounts(s: State, records: set<nat>, buffers: set<nat>) {
    && s.inFlight !! records && s.live.Keys == s.inFlight + records && s.live.Keys !! s.freed
    && (forall id: nat :: id < s.issued <==> id in s.live || id in s.freed)
    && (forall id :: id in buffers ==> id < s.issued && id !in s.inFlight)
    && (forall id :: id in s.buffers <==> id in buffers || (id in s.inFlight && s.live[id].buffer != NoBuffer))
    && (forall id :: id in s.inFlight && id in s.buffers ==> s.buffers[id] == s.live[id].buffer)
  }

  /** Each op and the wakeup have one request in flight at most, none once a call ended it. */
  ghost predicate Targets(s: State) {
    && s.inFlight <= s.live.Keys
    && (forall id :: id in s.inFlight ==> Typed(s.ops, s.live[id]) && NotEnded(s, s.live[id].target))
    && (forall a, b :: a in s.inFlight && b in s.inFlight && a != b && s.live[a].target == s.live[b].target ==>
          s.live[a].target.AdHocWrite?)
  }

  /** No op is called again after a call that ended it. */
  ghost predicate LogOk(s: State) {
    && (forall k :: 0 <= k < |s.log| && s.log[k].target.Op? ==> s.log[k].target.index < |s.ops|)
    && (forall j, k :: 0 <= j < k < |s.log| && s.log[j].target.Op? && s.log[j].target == s.log[k].target ==>
          !Final(s.ops[s.log[j].target.index].opType, s.log[j]))
  }

  ghost predicate Inv(s: State, records: set<nat>, buffers: set<nat>) {
    Accounts(s, records, buffers) && Targets(s) && LogOk(s)
  }

  lemma SubmitAccounts(s: State, records: set<nat>, buffers: set<nat>, target: Target, buffer: Buffer)
    requires Accounts(s, records, buffers)
    ensures Accounts(Submit(s, target, buffer), records, buffers)
  {
    assert s.issued !in s.live && s.issued !in s.freed;
  }

  lemma SubmitTargets(s: State, target: Target, buffer: Buffer)
    requires Targets(s) && s.issued !in s.live && Typed(s.ops, Pending(target, buffer))
    requires target.AdHocWrite? || (!InFlight(s, target) && NotEnded(s, target))
    ensures Targets(Submit(s, target, buffer))
  {
    var u := Submit(s, target, buffer);
    assert u.live[s.issued].target == target;
    forall id | id in u.inFlight
      ensures Typed(u.ops, u.live[id]) && NotEnded(u, u.live[id].target)
    {
      assert id != s.issued ==> NotEnded(s, s.live[id].target);
    }
  }

  lemma SubmitInv(s: State, records: set<nat>, buffers: set<nat>, target: Target, buffer: Buffer)
    requires Inv(s, records, buffers) && Typed(s.ops, Pending(target, buffer))
    requires target.AdHocWrite? || (!InFlight(s, target) && NotEnded(s, target))
    ensures Inv(Submit(s, target, buffer), records, buffers)
    ensures forall t: Target :: t != target ==> (InFlight(Submit(s, target, buffer), t) <==> InFlight(s, t))
    ensures forall t: Target :: NotEnded(Submit(s, target, buffer), t) <==> NotEnded(s, t)
  {
    assert s.issued !in s.live;
    SubmitAccounts(s, records, buffers, target, buffer);
    SubmitTargets(s, target, buffer);
    SubmitFrames(s, target, buffer);
  }

  lemma SubmitFrames(s: State, target: Target, buffer: Buffer)
    requires s.issued !in s.live
    ensures forall t: Target :: t != target ==> (InFlight(Submit(s, target, buffer), t) <==> InFlight(s, t))
    ensures InFlight(Submit(s, target, buffer), target)
  {
    var u := Submit(s, target, buffer);
    assert s.issued in u.inFlight && u.live[s.issued].target == target;
    forall t | t != target
      ensures InFlight(u, t) <==> InFlight(s, t)
    {
      if InFlight(s, t) {
        var k :| k in s.inFlight && k in s.live && s.live[k].target == t;
        assert k in u.inFlight && u.live[k].target == t;
      }
    }
  }

  lemma SeenInv(s: State, id: nat)
    requires Inv(s, {}, {}) && id in s.inFlight
    ensures Inv(Seen(s, id), {id}, if s.live[id].buffer == NoBuffer then {} else {id})
    ensures s.live[id].target.AdHocWrite? || !InFlight(Seen(s, id), s.live[id].target)
    ensures NotEnded(Seen(s, id), s.live[id].target)
  {
    assert forall k :: k in Seen(s, id).inFlight ==> NotEnded(Seen(s, id), s.live[k].target);
  }

  lemma FreeRecordInv(s: State, id: nat, buffers: set<nat>, t: Target)
    requires Inv(s, {id}, buffers)
    ensures Inv(FreeRecord(s, id), {}, buffers)
    ensures InFlight(FreeRecord(s, id), t) <==> InFlight(s, t)
    ensures NotEnded(FreeRecord(s, id), t) <==> NotEnded(s, t)
  {
    if InFlight(s, t) {
      var k :| k in s.inFlight && k in s.live && s.live[k].target == t;
      assert k in FreeRecord(s, id).live && FreeRecord(s, id).live[k].target == t;
    }
  }

  lemma FreeBufferInv(s: State, id: nat, records: set<nat>, buffer: Buffer, t: Target)
    requires Inv(s, records, if buffer == NoBuffer then {} else {id})
    requires buffer != NoBuffer ==> s.buffers[id] == buffer
    ensures Inv(FreeBuffer(s, id, buffer), records, {})
    ensures InFlight(FreeBuffer(s, id, buffer), t) <==> InFlight(s, t)
    ensures NotEnded(FreeBuffer(s, id, buffer), t) <==> NotEnded(s, t)
  {
  }

  lemma {:induction false} EffectsInv(s: State, es: seq<Effect>, records: set<nat>, buffers: set<nat>)
    requires Inv(s, records, buffers)
    ensures Inv(PerformAll(s, es), records, buffers)
    ensures forall t: Target :: !t.AdHocWrite? ==> (InFlight(PerformAll(s, es), t) <==> InFlight(s, t))
  {
    if es != [] {
      var m := PerformAll(s, es[..|es| - 1]);
      EffectsInv(s, es[..|es| - 1], records, buffers);
      EffectInv(m, es[|es| - 1], records, buffers);
    }
  }

  lemma EffectInv(s: State, e: Effect, records: set<nat>, buffers: set<nat>)
    requires Inv(s, records, buffers)
    ensures Inv(Perform(s, e), records, buffers)
    ensures forall t: Target :: !t.AdHocWrite? ==> (InFlight(Perform(s, e), t) <==> InFlight(s, t))
  {
    match e
    case SubmitWrite(fd, n, cb) =>
      if fd >= 0 && n > 0 {
        SubmitInv(s, records, buffers, AdHocWrite(fd, cb), FromHeap);
      }
    case Unregister(fd) =>
      ClearInv(s, fd, records, buffers);
  }

  lemma ClearInv(s: State, fd: int, records: set<nat>, buffers: set<nat>)
    requires Inv(s, records, buffers)
    ensures Inv(Perform(s, Unregister(fd)), records, buffers)
    ensures forall t: Target :: InFlight(Perform(s, Unregister(fd)), t) <==> InFlight(s, t)
  {
    var u := Perform(s, Unregister(fd));
    assert forall i :: 0 <= i < |s.ops| ==> u.ops[i].opType == s.ops[i].opType;
    forall id | id in u.inFlight
      ensures Typed(u.ops, u.live[id]) && NotEnded(u, u.live[id].target)
    {
      assert NotEnded(s, s.live[id].target);
    }
  }

  /** A call for a target with nothing in flight, not ended before, keeps the invariant; the
      target is ended by it exactly if the call is final. */
  lemma CallInv(s: State, f: Fired, c: Completion, records: set<nat>, buffers: set<nat>)
    requires Inv(s, records, buffers) && NotEnded(s, f.target)
    requires f.target.AdHocWrite? || !InFlight(s, f.target)
    ensures var u := Call(s, f, c);
            && Inv(u, records, buffers) && |u.ops| == |s.ops|
            && (f.target.AdHocWrite? || !InFlight(u, f.target))
            && (f.target.Op? && !Final(s.ops[f.target.index].opType, f) ==> NotEnded(u, f.target))
  {
    var s1 := s.(log := s.log + [f]);
    LogInv(s, f, records, buffers);
    EffectsInv(s1, c.effects, records, buffers);
    EffectsKeep(s1, c.effects);
    assert InFlight(s1, f.target) <==> InFlight(s, f.target);
  }

  lemma LogInv(s: State, f: Fired, records: set<nat>, buffers: set<nat>)
    requires Inv(s, records, buffers) && NotEnded(s, f.target)
    requires f.target.AdHocWrite? || !InFlight(s, f.target)
    ensures Inv(s.(log := s.log + [f]), records, buffers)
    ensures f.target.Op? && !Final(s.ops[f.target.index].opType, f) ==> NotEnded(s.(log := s.log + [f]), f.target)
  {
    var u := s.(log := s.log + [f]);
    forall id | id in u.inFlight
      ensures NotEnded(u, u.live[id].target)
    {
      assert NotEnded(s, s.live[id].target);
      assert InFlight(s, s.live[id].target);
    }
  }

  // ---------------------------------------------------------------- one completion

  /** Whether a completed op is armed again, in terms of the descriptor it has afterwards. */
  predicate Rearms(before: OpDesc, after: OpDesc, c: Completion) {
    c.running &&
    match before.opType
    case TIMEOUT =>
      after.fd >= -1 && (before.hasCallback && (c.result == -62 || c.result == 0) ==> c.rc == 0)
    case _ =>
      c.result > 0 && (before.hasCallback ==> c.rc == 0) && after.fd >= 0
      && (before.opType == READ ==> after.bufSize > 0)
  }

  lemma WakeupInv(s: State, c: Completion)
    requires Inv(s, {}, {}) && c.id in s.inFlight && s.live[c.id].target == Wakeup
    ensures Inv(Process(s, c), {}, {})
    ensures InFlight(Process(s, c), Wakeup) <==> c.running
  {
    SeenInv(s, c.id);
    var s1 := Seen(s, c.id);
    FreeBufferInv(s1, c.id, {c.id}, s.live[c.id].buffer, Wakeup);
    var s2 := FreeBuffer(s1, c.id, s.live[c.id].buffer);
    FreeRecordInv(s2, c.id, {}, Wakeup);
    var s3 := FreeRecord(s2, c.id);
    if c.running {
      SubmitInv(s3, {}, {}, Wakeup, FromHeap);
      SubmitFrames(s3, Wakeup, FromHeap);
    }
  }

  lemma WriteInv(s: State, c: Completion)
    requires Inv(s, {}, {}) && c.id in s.inFlight && s.live[c.id].target.AdHocWrite?
    ensures Inv(Process(s, c), {}, {})
  {
    var p := s.live[c.id];
    SeenInv(s, c.id);
    var s1 := Seen(s, c.id);
    if p.target.hasCallback {
      var f := Firing(s1, p.target, p.target.fd, c, true);
      CallInv(s1, f, c, {c.id}, {c.id});
      CallKeeps(s1, f, c);
      s1 := Call(s1, f, c);
    }
    FreeBufferInv(s1, c.id, {c.id}, p.buffer, p.target);
    FreeRecordInv(FreeBuffer(s1, c.id, p.buffer), c.id, {}, p.target);
  }

  /** Calling the callback of op i, whose request is over: what the rest of process_cqe
      relies on. */
  lemma CallOp(s: State, i: nat, c: Completion, gives: bool, records: set<nat>, buffers: set<nat>)
    requires Inv(s, records, buffers) && i < |s.ops| && NotEnded(s, Op(i)) && !InFlight(s, Op(i)) && c.id < s.issued
    ensures var u := Call(s, Firing(s, Op(i), s.ops[i].fd, c, gives), c);
            && Inv(u, records, buffers) && !InFlight(u, Op(i)) && Keeps(s, u, c.id)
            && u.ops[i].(fd := 0) == s.ops[i].(fd := 0)
            && (c.rc == 0 && (s.ops[i].opType == TIMEOUT || c.result > 0) ==> NotEnded(u, Op(i)))
  {
    var f := Firing(s, Op(i), s.ops[i].fd, c, gives);
    CallInv(s, f, c, records, buffers);
    CallKeeps(s, f, c);
    EffectsKeep(s.(log := s.log + [f]), c.effects);
  }

  lemma Arm(s: State, i: nat, buffer: Buffer)
    requires Inv(s, {}, {}) && Typed(s.ops, Pending(Op(i), buffer)) && NotEnded(s, Op(i)) && !InFlight(s, Op(i))
    ensures Inv(Submit(s, Op(i), buffer), {}, {}) && InFlight(Submit(s, Op(i), buffer), Op(i))
  {
    SubmitInv(s, {}, {}, Op(i), buffer);
    SubmitFrames(s, Op(i), buffer);
  }

  ghost predicate Completed(s: State, i: nat, c: Completion, u: State)
    requires i < |s.ops|
  {
    && Inv(u, {}, {}) && |u.ops| == |s.ops|
    && (InFlight(u, Op(i)) <==> Rearms(s.ops[i], u.ops[i], c))
    && (s.ops[i].opType == READ ==> ReadsInto(u, i, c.poolGives))
  }

  /** The buffer of the op's request in flight is a pool block exactly if the pool gave one. */
  ghost predicate ReadsInto(s: State, i: nat, poolGives: bool) {
    forall id :: id in s.inFlight && id in s.live && s.live[id].target == Op(i) ==>
      s.live[id].buffer == if poolGives then FromPool else FromHeap
  }

  lemma TimeoutInv(s: State, i: nat, c: Completion)
    requires Inv(s, {}, {}) && c.id in s.inFlight && s.live[c.id].target == Op(i) && s.ops[i].opType == TIMEOUT
    ensures Completed(s, i, c, ProcessTimeout(s, i, c))
  {
    var d := s.ops[i];
    SeenInv(s, c.id);
    var s1 := Seen(s, c.id);
    if d.hasCallback && (c.result == -ETIME || c.result == 0) {
      CallOp(s1, i, c, false, {c.id}, {});
      s1 := Call(s1, Firing(s1, Op(i), d.fd, c, false), c);
    }
    FreeRecordInv(s1, c.id, {}, Op(i));
    var s2 := FreeRecord(s1, c.id);
    if Rearms(d, s2.ops[i], c) {
      Arm(s2, i, NoBuffer);
    }
  }

  /** What is known of op i, described by d before its callback ran, once the callback has
      run and record and buffer are freed. */
  ghost predicate ReadyToArm(s: State, i: nat, d: OpDesc, c: Completion) {
    && Inv(s, {}, {}) && i < |s.ops| && !InFlight(s, Op(i)) && s.ops[i].(fd := 0) == d.(fd := 0)
    && (c.result > 0 && (d.hasCallback ==> c.rc == 0) ==> NotEnded(s, Op(i)))
  }

  lemma ReadTail(s: State, i: nat, d: OpDesc, c: Completion)
    requires ReadyToArm(s, i, d, c) && d.opType == READ
    ensures var u := if c.running && c.result > 0 && (d.hasCallback ==> c.rc == 0) && s.ops[i].fd >= 0
                     then SubmitRead(s, i, c.poolGives) else s;
            && u.ops == s.ops && Inv(u, {}, {}) && (InFlight(u, Op(i)) <==> Rearms(d, u.ops[i], c))
            && ReadsInto(u, i, c.poolGives)
  {
    assert forall id :: id in s.inFlight && id in s.live ==> s.live[id].target != Op(i);
    if Rearms(d, s.ops[i], c) {
      Arm(s, i, if c.poolGives then FromPool else FromHeap);
    }
  }

  lemma PollTail(s: State, i: nat, d: OpDesc, c: Completion)
    requires ReadyToArm(s, i, d, c) && d.opType == POLL
    ensures var u := if c.running && c.result > 0 && (d.hasCallback ==> c.rc == 0) && s.ops[i].fd >= 0
                     then SubmitPoll(s, i) else s;
            u.ops == s.ops && Inv(u, {}, {}) && (InFlight(u, Op(i)) <==> Rearms(d, u.ops[i], c))
  {
    if Rearms(d, s.ops[i], c) {
      Arm(s, i, NoBuffer);
    }
  }

  lemma FreeAndCallInv(s: State, i: nat, c: Completion)
    requires Inv(s, {}, {}) && c.id in s.inFlight && s.live[c.id].target == Op(i) && s.ops[i].opType != TIMEOUT
    ensures var b := s.live[c.id].buffer;
            var s1 := FreeAndCall(s, i, c);
            && Inv(s1, {}, if b == NoBuffer then {} else {c.id}) && |s1.ops| == |s.ops|
            && (b != NoBuffer ==> s1.buffers[c.id] == b)
            && !InFlight(s1, Op(i)) && s1.ops[i].(fd := 0) == s.ops[i].(fd := 0)
            && (c.result > 0 && (s.ops[i].hasCallback ==> c.rc == 0) ==> NotEnded(s1, Op(i)))
  {
    var b := s.live[c.id].buffer;
    SeenInv(s, c.id);
    FreeRecordInv(Seen(s, c.id), c.id, if b == NoBuffer then {} else {c.id}, Op(i));
    if s.ops[i].hasCallback {
      var gives := s.ops[i].opType == READ && c.result > 0;
      CallOp(FreeRecord(Seen(s, c.id), c.id), i, c, gives, {}, if b == NoBuffer then {} else {c.id});
    }
  }

  lemma ReadInv(s: State, i: nat, c: Completion)
    requires Inv(s, {}, {}) && c.id in s.inFlight && s.live[c.id].target == Op(i) && s.ops[i].opType == READ
    ensures Completed(s, i, c, ProcessRead(s, i, c))
  {
    FreeAndCallInv(s, i, c);
    var s1 := FreeAndCall(s, i, c);
    FreeBufferInv(s1, c.id, {}, s.live[c.id].buffer, Op(i));
    ReadTail(FreeBuffer(s1, c.id, s.live[c.id].buffer), i, s.ops[i], c);
  }

  lemma PollInv(s: State, i: nat, c: Completion)
    requires Inv(s, {}, {}) && c.id in s.inFlight && s.live[c.id].target == Op(i) && s.ops[i].opType == POLL
    ensures Completed(s, i, c, ProcessPoll(s, i, c))
  {
    FreeAndCallInv(s, i, c);
    PollTail(FreeAndCall(s, i, c), i, s.ops[i], c);
  }

  // ---------------------------------------------------------------- whole runs

  lemma ProcessInv(s: State, c: Completion)
    requires Inv(s, {}, {}) && c.id in s.inFlight
    ensures Inv(Process(s, c), {}, {})
    ensures s.live[c.id].target.Op? ==> Completed(s, s.live[c.id].target.index, c, Process(s, c))
    ensures s.live[c.id].target == Wakeup ==> (InFlight(Process(s, c), Wakeup) <==> c.running)
  {
    match s.live[c.id].target
    case Wakeup => WakeupInv(s, c);
    case AdHocWrite(_, _) => WriteInv(s, c);
    case Op(i) =>
      if s.ops[i].opType == TIMEOUT {
        TimeoutInv(s, i, c);
      } else if s.ops[i].opType == READ {
        ReadInv(s, i, c);
      } else {
        PollInv(s, i, c);
      }
  }

  /** A loop on which ops have been registered and nothing submitted. */
  function Fresh(ops: seq<OpDesc>): State {
    State(ops, map[], {}, map[], 0, {}, [])
  }

  /** The first request of op i, if its kind and descriptor call for one. */
  function StartOp(s: State, i: nat, poolGives: bool): State
    requires i < |s.ops|
  {
    var d := s.ops[i];
    if d.opType == READ && d.fd >= 0 then SubmitRead(s, i, poolGives)
    else if d.opType == POLL && d.fd >= 0 then SubmitPoll(s, i)
    else if d.opType == TIMEOUT then SubmitTimeout(s, i)
    else s
  }

  /** The first requests of the first n ops. */
  function StartOps(ops: seq<OpDesc>, n: nat, pool: seq<bool>): (s: State)
    requires n <= |ops| == |pool|
    ensures s.ops == ops
  {
    if n == 0 then Fresh(ops) else StartOp(StartOps(ops, n - 1, pool), n - 1, pool[n - 1])
  }

  function Start(ops: seq<OpDesc>, pool: seq<bool>): (s: State)
    requires |ops| == |pool|
  {
    Submit(StartOps(ops, |ops|, pool), Wakeup, FromHeap)
  }

  predicate Starts(d: OpDesc) {
    (d.opType == READ && d.fd >= 0 && d.bufSize > 0) || (d.opType == POLL && d.fd >= 0) || d.opType == TIMEOUT
  }

  /** Exactly those of the first n ops that can have a request have one in flight. */
  ghost predicate StartedUpTo(s: State, n: nat, pool: seq<bool>) {
    && Inv(s, {}, {}) && s.log == [] && n <= |s.ops| == |pool|
    && (forall t: Target :: InFlight(s, t) <==> t.Op? && t.index < n && Starts(s.ops[t.index]))
    && (forall i: nat :: i < |s.ops| && s.ops[i].opType == READ ==> ReadsInto(s, i, pool[i]))
  }

  lemma FreshInv(ops: seq<OpDesc>, pool: seq<bool>)
    requires |ops| == |pool|
    ensures StartedUpTo(Fresh(ops), 0, pool)
  {
  }

  lemma StartOpInv(s: State, i: nat, pool: seq<bool>, u: State)
    requires StartedUpTo(s, i, pool) && i < |s.ops| && u == StartOp(s, i, pool[i])
    ensures StartedUpTo(u, i + 1, pool)
  {
    if Starts(s.ops[i]) {
      var kind := if s.ops[i].opType != READ then NoBuffer else if pool[i] then FromPool else FromHeap;
      assert u == Submit(s, Op(i), kind);
      assert !InFlight(s, Op(i));
      SubmitInv(s, {}, {}, Op(i), kind);
      SubmitFrames(s, Op(i), kind);
      FirstBuffer(s, i, kind, u, pool);
    } else {
      assert u == s;
    }
  }

  lemma FirstBuffer(s: State, i: nat, kind: Buffer, u: State, pool: seq<bool>)
    requires StartedUpTo(s, i, pool) && i < |s.ops| && u == Submit(s, Op(i), kind) && !InFlight(s, Op(i))
    requires s.ops[i].opType == READ ==> kind == if pool[i] then FromPool else FromHeap
    ensures forall j: nat :: j < |u.ops| && u.ops[j].opType == READ ==> ReadsInto(u, j, pool[j])
  {
    forall j: nat | j < |u.ops| && u.ops[j].opType == READ ensures ReadsInto(u, j, pool[j]) {
      assert ReadsInto(s, j, pool[j]);
    }
  }

  lemma {:induction false} StartOpsInv(ops: seq<OpDesc>, n: nat, pool: seq<bool>)
    requires n <= |ops| == |pool|
    ensures StartedUpTo(StartOps(ops, n, pool), n, pool)
  {
    if n > 0 {
      StartOpsInv(ops, n - 1, pool);
      StartOpInv(StartOps(ops, n - 1, pool), n - 1, pool, StartOps(ops, n, pool));
    } else {
      FreshInv(ops, pool);
    }
  }

  /** Starting the loop puts exactly one request in flight for each op that can have one,
      and one for the wakeup. */
  lemma StartInv(ops: seq<OpDesc>, pool: seq<bool>)
    requires |ops| == |pool|
    ensures Inv(Start(ops, pool), {}, {})
    ensures forall t: Target :: InFlight(Start(ops, pool), t) <==>
              t == Wakeup || (t.Op? && t.index < |ops| && Starts(ops[t.index]))
    ensures forall i: nat :: i < |ops| && ops[i].opType == READ ==> ReadsInto(Start(ops, pool), i, pool[i])
    ensures Start(ops, pool).log == [] && Start(ops, pool).ops == ops
  {
    var s := StartOps(ops, |ops|, pool);
    StartOpsInv(ops, |ops|, pool);
    assert !InFlight(s, Wakeup);
    forall i: nat | i < |ops| && ops[i].opType == READ ensures ReadsInto(Start(ops, pool), i, pool[i]) {
      assert ReadsInto(s, i, pool[i]);
    }
    SubmitInv(s, {}, {}, Wakeup, FromHeap);
    SubmitFrames(s, Wakeup, FromHeap);
  }

  /** One completion, of a request that is in flight, takes the loop from s to u. */
  ghost predicate Completes(s: State, c: Completion, u: State) {
    Inv(s, {}, {}) && c.id in s.inFlight && u == Process(s, c)
  }

  ghost predicate Linked(trace: seq<State>, cs: seq<Completion>, k: nat) {
    k < |cs| && k + 1 < |trace| && Completes(trace[k], cs[k], trace[k + 1])
  }

  ghost predicate IsTrace(trace: seq<State>, cs: seq<Completion>) {
    |trace| == |cs| + 1 && forall k: nat :: k < |cs| ==> Linked(trace, cs, k)
  }

  /** `cs` completes requests that are in flight when their turn comes, in any order, and
      takes the loop from s to u. */
  ghost predicate Run(s: State, cs: seq<Completion>, u: State) {
    exists trace :: IsTrace(trace, cs) && trace[0] == s && trace[|cs|] == u
  }

  lemma TraceInv(trace: seq<State>, cs: seq<Completion>, k: nat)
    requires IsTrace(trace, cs) && Inv(trace[0], {}, {}) && k <= |cs|
    ensures Inv(trace[k], {}, {})
  {
    if k > 0 {
      var c := cs[k - 1];
      assert Linked(trace, cs, k - 1);
      ProcessInv(trace[k - 1], c);
    }
  }

  lemma RunInv(s: State, cs: seq<Completion>, u: State)
    requires Inv(s, {}, {}) && Run(s, cs, u)
    ensures Inv(u, {}, {})
  {
    var trace :| IsTrace(trace, cs) && trace[0] == s && trace[|cs|] == u;
    TraceInv(trace, cs, |cs|);
  }

  /** Over every run, whatever order requests complete in and whatever the callbacks return
      and do: records allocated are those in flight plus those freed, each freed once; the
      buffers allocated are those of the in-flight reads, writes and wakeup, pool blocks
      only for reads; each op and the wakeup have at most one request in flight; and an op
      is not called again after a call that returned nonzero or, for a read or poll, came
      with an error or end of file. */
  lemma RunsKeepOwnership(ops: seq<OpDesc>, pool: seq<bool>, cs: seq<Completion>, u: State)
    requires |ops| == |pool| && Run(Start(ops, pool), cs, u)
    ensures u.live.Keys == u.inFlight && u.inFlight !! u.freed
    ensures forall id: nat :: id < u.issued <==> id in u.inFlight || id in u.freed
    ensures forall id :: id in u.buffers <==> id in u.inFlight && u.live[id].buffer != NoBuffer
    ensures forall id :: id in u.buffers ==> u.buffers[id] == u.live[id].buffer
    ensures forall id :: id in u.buffers && u.buffers[id] == FromPool ==>
              u.live[id].target.Op? && u.live[id].target.index < |u.ops|
              && u.ops[u.live[id].target.index].opType == READ
    ensures forall a, b :: a in u.inFlight && b in u.inFlight && a != b && !u.live[a].target.AdHocWrite? ==>
              u.live[a].target != u.live[b].target
    ensures forall j, k :: 0 <= j < k < |u.log| && u.log[j].target.Op? && u.log[j].rc != 0 ==>
              u.log[k].target != u.log[j].target
    ensures LogOk(u)
  {
    StartInv(ops, pool);
    RunInv(Start(ops, pool), cs, u);
  }

  /** Clearing a descriptor does not keep the in-flight request's callback from being
      called: it is called with descriptor -1. */
  lemma UnregisteredOpStillCalled(s: State, i: nat, c: Completion)
    requires Inv(s, {}, {}) && c.id in s.inFlight && s.live[c.id].target == Op(i)
    requires s.ops[i].fd == -1 && s.ops[i].hasCallback && s.ops[i].opType in {READ, POLL}
    ensures var log := Process(s, c).log;
            && |log| == |s.log| + 1
            && var f := log[|s.log|];
               f.target == Op(i) && f.fd == -1 && f.result == c.result && f.rc == c.rc
    ensures !InFlight(Process(s, c), Op(i))
  {
    ProcessInv(s, c);
    var s1 := FreeRecord(Seen(s, c.id), c.id);
    var f := Firing(s1, Op(i), -1, c, s.ops[i].opType == READ && c.result > 0);
    EffectsKeep(s1.(log := s1.log + [f]), c.effects);
  }

  /** Requests of ops in u other than those for t were in flight in s already. */
  ghost predicate NoNewBut(s: State, u: State, t: Target) {
    forall id :: id in u.inFlight && id in u.live && u.live[id].target.Op? && u.live[id].target != t ==>
      id in s.inFlight && id in s.live && s.live[id].target == u.live[id].target
  }

  lemma {:induction false} EffectsAddNoOp(s: State, es: seq<Effect>, t: Target)
    ensures NoNewBut(s, PerformAll(s, es), t)
  {
    if es != [] {
      EffectsAddNoOp(s, es[..|es| - 1], t);
    }
  }

  lemma CallAddsOne(s: State, f: Fired, c: Completion)
    ensures var u := Call(s, f, c);
            && NoNewBut(s, u, f.target) && u.log == s.log + [f]
            && |u.ops| == |s.ops|
            && forall i :: 0 <= i < |s.ops| ==> u.ops[i] == s.ops[i] || u.ops[i] == s.ops[i].(fd := -1)
  {
    var s1 := s.(log := s.log + [f]);
    EffectsAddNoOp(s1, c.effects, f.target);
    EffectsKeep(s1, c.effects);
  }

  /** What one completion adds and leaves: at most one call, of the target whose request it
      was; no request of any other op; and descriptors change only to -1. */
  ghost predicate Touches(s: State, u: State, t: Target) {
    && NoNewBut(s, u, t)
    && (u.log == s.log || (|u.log| == |s.log| + 1 && u.log[..|s.log|] == s.log && u.log[|s.log|].target == t))
    && |u.ops| == |s.ops|
    && forall i :: 0 <= i < |s.ops| ==> u.ops[i] == s.ops[i] || u.ops[i] == s.ops[i].(fd := -1)
  }

  lemma WriteTouches(s: State, c: Completion)
    requires Inv(s, {}, {}) && c.id in s.inFlight && s.live[c.id].target.AdHocWrite?
    ensures Touches(s, ProcessWrite(s, c), s.live[c.id].target)
  {
    var t := s.live[c.id].target;
    CallAddsOne(Seen(s, c.id), Firing(Seen(s, c.id), t, t.fd, c, true), c);
  }

  lemma TimeoutTouches(s: State, i: nat, c: Completion)
    requires Inv(s, {}, {}) && c.id in s.inFlight && s.live[c.id].target == Op(i) && s.ops[i].opType == TIMEOUT
    ensures Touches(s, ProcessTimeout(s, i, c), Op(i))
  {
    CallAddsOne(Seen(s, c.id), Firing(Seen(s, c.id), Op(i), s.ops[i].fd, c, false), c);
  }

  lemma FreeAndCallTouches(s: State, i: nat, c: Completion)
    requires Inv(s, {}, {}) && c.id in s.inFlight && s.live[c.id].target == Op(i)
    ensures Touches(s, FreeAndCall(s, i, c), Op(i))
    ensures s.ops[i].hasCallback ==> |FreeAndCall(s, i, c).log| == |s.log| + 1
  {
    var s1 := FreeRecord(Seen(s, c.id), c.id);
    CallAddsOne(s1, Firing(s1, Op(i), s.ops[i].fd, c, s.ops[i].opType == READ && c.result > 0), c);
  }

  lemma ReadTouches(s: State, i: nat, c: Completion)
    requires Inv(s, {}, {}) && c.id in s.inFlight && s.live[c.id].target == Op(i) && s.ops[i].opType == READ
    ensures Touches(s, ProcessRead(s, i, c), Op(i))
  {
    FreeAndCallTouches(s, i, c);
  }

  lemma PollTouches(s: State, i: nat, c: Completion)
    requires Inv(s, {}, {}) && c.id in s.inFlight && s.live[c.id].target == Op(i) && s.ops[i].opType == POLL
    ensures Touches(s, ProcessPoll(s, i, c), Op(i))
  {
    FreeAndCallTouches(s, i, c);
  }

  lemma ProcessTouches(s: State, c: Completion)
    requires Inv(s, {}, {}) && c.id in s.inFlight
    ensures Touches(s, Process(s, c), s.live[c.id].target)
  {
    match s.live[c.id].target
    case Wakeup =>
    case AdHocWrite(_, _) => WriteTouches(s, c);
    case Op(i) =>
      if s.ops[i].opType == TIMEOUT {
        TimeoutTouches(s, i, c);
      } else if s.ops[i].opType == READ {
        ReadTouches(s, i, c);
      } else {
        PollTouches(s, i, c);
      }
  }

  /** How often a target has been called. */
  function CallsOf(log: seq<Fired>, t: Target): nat
    decreases |log|
  {
    if log == [] then 0
    else CallsOf(log[..|log| - 1], t) + if log[|log| - 1].target == t then 1 else 0
  }

  lemma CallsGrow(s: State, u: State, touched: Target, t: Target)
    requires Touches(s, u, touched)
    ensures CallsOf(s.log, t) <= CallsOf(u.log, t) <= CallsOf(s.log, t) + 1
    ensures t != touched ==> CallsOf(u.log, t) == CallsOf(s.log, t)
    ensures t == touched && |u.log| > |s.log| ==> CallsOf(u.log, t) == CallsOf(s.log, t) + 1
  {
  }

  /** An op with no request in flight stays so, and is not called. */
  lemma IdleStaysIdle(s: State, c: Completion, i: nat)
    requires Inv(s, {}, {}) && c.id in s.inFlight && !InFlight(s, Op(i))
    ensures !InFlight(Process(s, c), Op(i)) && CallsOf(Process(s, c).log, Op(i)) == CallsOf(s.log, Op(i))
  {
    var t, u := s.live[c.id].target, Process(s, c);
    ProcessTouches(s, c);
    CallsGrow(s, u, t, Op(i));
    assert t != Op(i);
  }

  predicate Cleared(s: State, i: nat) {
    i < |s.ops| && s.ops[i].fd == -1 && (s.ops[i].opType == READ || s.ops[i].opType == POLL)
  }

  /** One completion for a cleared op: at most one call of it, and then none in flight. */
  lemma ClearedStep(s: State, c: Completion, i: nat)
    requires Inv(s, {}, {}) && c.id in s.inFlight && Cleared(s, i)
    ensures var u := Process(s, c);
            && Cleared(u, i) && CallsOf(u.log, Op(i)) <= CallsOf(s.log, Op(i)) + 1
            && (s.live[c.id].target == Op(i) ==> !InFlight(u, Op(i)))
            && (s.live[c.id].target != Op(i) ==> CallsOf(u.log, Op(i)) == CallsOf(s.log, Op(i)))
  {
    var t := s.live[c.id].target;
    ProcessTouches(s, c);
    CallsGrow(s, Process(s, c), t, Op(i));
    if t == Op(i) {
      ProcessInv(s, c);
    }
  }

  lemma {:induction false} IdleAlong(trace: seq<State>, cs: seq<Completion>, i: nat, k: nat)
    requires IsTrace(trace, cs) && !InFlight(trace[0], Op(i)) && k <= |cs|
    ensures !InFlight(trace[k], Op(i)) && CallsOf(trace[k].log, Op(i)) == CallsOf(trace[0].log, Op(i))
  {
    if k > 0 {
      IdleAlong(trace, cs, i, k - 1);
      assert Linked(trace, cs, k - 1);
      IdleStaysIdle(trace[k - 1], cs[k - 1], i);
    }
  }

  lemma {:induction false} ClearedAlong(trace: seq<State>, cs: seq<Completion>, i: nat, k: nat)
    requires IsTrace(trace, cs) && Cleared(trace[0], i) && k <= |cs|
    ensures Cleared(trace[k], i) && CallsOf(trace[k].log, Op(i)) <= CallsOf(trace[0].log, Op(i)) + 1
    ensures InFlight(trace[k], Op(i)) ==> CallsOf(trace[k].log, Op(i)) == CallsOf(trace[0].log, Op(i))
  {
    if k > 0 {
      ClearedAlong(trace, cs, i, k - 1);
      assert Linked(trace, cs, k - 1);
      var s, c := trace[k - 1], cs[k - 1];
      ClearedStep(s, c, i);
      if s.live[c.id].target == Op(i) {
        assert InFlight(s, Op(i));
      } else if !InFlight(s, Op(i)) {
        IdleStaysIdle(s, c, i);
      }
    }
  }

  /** Over every run, an op whose descriptor has been cleared is called at most once more. */
  lemma ClearedIsCalledAtMostOnce(s: State, cs: seq<Completion>, u: State, i: nat)
    requires Run(s, cs, u) && Cleared(s, i)
    ensures CallsOf(u.log, Op(i)) <= CallsOf(s.log, Op(i)) + 1
  {
    var trace :| IsTrace(trace, cs) && trace[0] == s && trace[|cs|] == u;
    ClearedAlong(trace, cs, i, |cs|);
  }

  ghost predicate Quiet(s: State, i: nat, cs: seq<Completion>, u: State) {
    Run(s, cs, u) ==> CallsOf(u.log, Op(i)) == CallsOf(s.log, Op(i))
  }

  /** Exactly when unregistering keeps its promise: the callback of a cleared op is never
      called again, in any run, if and only if the op had no request in flight. */
  lemma NeverCalledAgainIff(s: State, i: nat)
    requires Inv(s, {}, {}) && Cleared(s, i) && s.ops[i].hasCallback
    ensures (forall cs, u :: Quiet(s, i, cs, u)) <==> !InFlight(s, Op(i))
  {
    if InFlight(s, Op(i)) {
      var id :| id in s.inFlight && id in s.live && s.live[id].target == Op(i);
      var c := Completion(id, 0, 0, [], true, false);
      var u := Process(s, c);
      UnregisteredOpStillCalled(s, i, c);
      ProcessTouches(s, c);
      CallsGrow(s, u, Op(i), Op(i));
      RunOne(s, c, u);
      assert !Quiet(s, i, [c], u);
    } else {
      forall cs, u ensures Quiet(s, i, cs, u) {
        if Run(s, cs, u) {
          var trace :| IsTrace(trace, cs) && trace[0] == s && trace[|cs|] == u;
          IdleAlong(trace, cs, i, |cs|);
        }
      }
    }
  }

  lemma RunOne(s: State, c: Completion, u: State)
    requires Completes(s, c, u)
    ensures Run(s, [c], u)
  {
    assert Linked([s, u], [c], 0);
    assert IsTrace([s, u], [c]);
  }

  lemma OthersStayInFlight(s: State, i: nat, c: Completion, id: nat)
    requires Inv(s, {}, {}) && c.id in s.inFlight && s.live[c.id].target == Op(i) && s.ops[i].opType == TIMEOUT
    requires id in s.inFlight && id != c.id
    ensures var u := ProcessTimeout(s, i, c); id in u.inFlight && id in u.live && u.live[id] == s.live[id]
  {
    var f := Firing(Seen(s, c.id), Op(i), s.ops[i].fd, c, false);
    EffectsKeep(Seen(s, c.id).(log := s.log + [f]), c.effects);
  }

  lemma TimerUnregisters(s: State, i: nat, j: nat, c: Completion)
    requires Inv(s, {}, {}) && c.id in s.inFlight && s.live[c.id].target == Op(j) && s.ops[j].opType == TIMEOUT
    requires s.ops[j].hasCallback && c.result == -ETIME && i < |s.ops| && s.ops[i].fd >= 0
    requires FirstWith(s.ops, s.ops[i].fd, 0) == i && c.effects == [Unregister(s.ops[i].fd)]
    ensures ProcessTimeout(s, j, c).ops == s.ops[i := s.ops[i].(fd := -1)]
  {
    var f := Firing(Seen(s, c.id), Op(j), s.ops[j].fd, c, false);
    var s1 := Seen(s, c.id).(log := s.log + [f]);
    assert c.effects[..0] == [];
    assert PerformAll(s1, c.effects) == Perform(s1, c.effects[0]);
  }

  /** Such calls do happen: from every start with a read or poll op, reachable by its
      descriptor, and a timer whose callback unregisters it, there is a run in which the
      op's callback is called afterwards, with descriptor -1. */
  lemma UnregisteredCallIsReached(ops: seq<OpDesc>, pool: seq<bool>, i: nat, j: nat)
    returns (cs: seq<Completion>, u: State)
    requires |ops| == |pool| && i < |ops| && j < |ops| && i != j
    requires Starts(ops[i]) && ops[i].opType != TIMEOUT && ops[i].hasCallback && FirstWith(ops, ops[i].fd, 0) == i
    requires ops[j].opType == TIMEOUT && ops[j].hasCallback
    ensures Run(Start(ops, pool), cs, u) && |u.log| > 0
    ensures |cs| == 2 && cs[0].effects == [Unregister(ops[i].fd)]
    ensures u.log[|u.log| - 1].target == Op(i) && u.log[|u.log| - 1].fd == -1
  {
    var s := Start(ops, pool);
    StartInv(ops, pool);
    assert InFlight(s, Op(i)) && InFlight(s, Op(j));
    var a :| a in s.inFlight && a in s.live && s.live[a].target == Op(i);
    var b :| b in s.inFlight && b in s.live && s.live[b].target == Op(j);
    var first := Completion(b, -ETIME, 0, [Unregister(ops[i].fd)], true, false);
    var t := Process(s, first);
    TimerUnregisters(s, i, j, first);
    OthersStayInFlight(s, j, first, a);
    ProcessInv(s, first);
    var second := Completion(a, 1, 0, [], true, false);
    u := Process(t, second);
    UnregisteredOpStillCalled(t, i, second);
    RunOne(s, first, t);
    RunSnoc(s, [first], t, second, u);
    cs := [first] + [second];
  }

  // ---------------------------------------------------------------- registration

  const MAX_OPS := 64

  /** The first slot from i on that counts as free for an op type; |ops| if there is none. */
  function FreeSlot(ops: seq<OpDesc>, t: OpType, i: nat): (r: nat)
    requires i <= |ops|
    ensures i <= r <= |ops| && (r < |ops| ==> ops[r].fd < 0 && ops[r].opType == t)
    ensures forall k :: i <= k < r ==> !(ops[k].fd < 0 && ops[k].opType == t)
    decreases |ops| - i
  {
    if i == |ops| || (ops[i].fd < 0 && ops[i].opType == t) then i else FreeSlot(ops, t, i + 1)
  }

  /** The op table after a registration, and the slot used, or -1 if there was no room. */
  function RegisterOp(ops: seq<OpDesc>, d: OpDesc): (seq<OpDesc>, int) {
    var i := FreeSlot(ops, d.opType, 0);
    if i < |ops| then (ops[i := d], i)
    else if |ops| >= MAX_OPS then (ops, -1)
    else (ops + [d], |ops|)
  }

  /** Whether some op of the type has a negative descriptor, as a cleared one has, and a timer. */
  predicate HasFree(ops: seq<OpDesc>, t: OpType) {
    exists k :: 0 <= k < |ops| && ops[k].fd < 0 && ops[k].opType == t
  }

  /** Exactly when a registration takes the place of an op registered before: some op of the
      same type has a negative descriptor; it is then the first such, and no other changes.
      Otherwise nothing is lost: the op goes to a new slot, or is refused when there are 64. */
  lemma RegisterOverwritesIff(ops: seq<OpDesc>, d: OpDesc)
    ensures var r := RegisterOp(ops, d);
            && (0 <= r.1 < |ops| <==> HasFree(ops, d.opType))
            && (0 <= r.1 < |ops| ==>
                  && ops[r.1].fd < 0 && ops[r.1].opType == d.opType && !HasFree(ops[..r.1], d.opType)
                  && r.0 == ops[r.1 := d])
            && (!HasFree(ops, d.opType) ==>
                  if |ops| >= 64 then r.1 == -1 && r.0 == ops else r.1 == |ops| && r.0 == ops + [d])
  {
    var i := FreeSlot(ops, d.opType, 0);
    if i < |ops| {
      assert ops[i].fd < 0 && ops[i].opType == d.opType;
    }
  }

  /** Registering touches one slot at most: the first whose descriptor is negative and whose
      type is the same, else a new one at the end. So a second timer, whose descriptor is
      -1, replaces the first. */
  lemma SecondTimerReplacesFirst(a: OpDesc, b: OpDesc)
    requires a.opType == TIMEOUT && b.opType == TIMEOUT && a.fd == -1
    ensures RegisterOp(RegisterOp([], a).0, b) == ([b], 0)
  {
    assert RegisterOp([], a).0 == [a];
    assert [a][0 := b] == [b];
  }

  // ---------------------------------------------------------------- scripts

  /** A script that some run follows to its end. */
  ghost predicate Legal(s: State, cs: seq<Completion>) {
    exists u :: Run(s, cs, u)
  }

  lemma RunSnoc(s: State, cs: seq<Completion>, u: State, c: Completion, v: State)
    requires Run(s, cs, u) && Completes(u, c, v)
    ensures Run(s, cs + [c], v)
  {
    var trace :| IsTrace(trace, cs) && trace[0] == s && trace[|cs|] == u;
    var longer := trace + [v];
    forall k: nat | k < |cs + [c]| ensures Linked(longer, cs + [c], k) {
      if k < |cs| {
        assert Linked(trace, cs, k);
      }
    }
    assert IsTrace(longer, cs + [c]);
  }

  lemma LegalNext(s: State, cs: seq<Completion>) returns (v: State)
    requires cs != [] && Legal(s, cs)
    ensures Completes(s, cs[0], v) && Legal(v, cs[1..])
  {
    var u :| Run(s, cs, u);
    var trace :| IsTrace(trace, cs) && trace[0] == s && trace[|cs|] == u;
    v := trace[1];
    var rest := trace[1..];
    assert Linked(trace, cs, 0);
    forall k: nat | k < |cs[1..]| ensures Linked(rest, cs[1..], k) {
      assert Linked(trace, cs, k + 1);
    }
    assert IsTrace(rest, cs[1..]);
    assert Run(v, cs[1..], u);
  }

  lemma RunNothing(s: State)
    ensures Run(s, [], s)
  {
    assert IsTrace([s], []);
  }

  /** Handling the next completion of a legal script keeps everything the dispatch loop
      relies on. */
  lemma DispatchStep(s: State, script: seq<Completion>, n: nat, t: State) returns (v: State)
    requires n < |script|
    requires Run(s, script[..n], t) && Legal(t, script[n..])
    ensures Completes(t, script[n], v)
    ensures Run(s, script[..n + 1], v) && Legal(v, script[n + 1..])
  {
    v := LegalNext(t, script[n..]);
    RunSnoc(s, script[..n], t, script[n], v);
    assert script[..n + 1] == script[..n] + [script[n]];
    assert script[n..][1..] == script[n + 1..];
  }
}
