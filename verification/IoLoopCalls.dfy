/** Which callbacks the event loop calls: exactly which call each completion makes, and that
    over every run each request's callback is called once, when the request completes. */
module IoLoopCalls {
  import opened IoLoopModel

  // ---------------------------------------------------------------- one completion

  lemma CallLogs(s: State, f: Fired, c: Completion)
    ensures Call(s, f, c).log == s.log + [f]
  {
    EffectsKeep(s.(log := s.log + [f]), c.effects);
  }

  /** What a completion calls. The wakeup calls nothing. A write with a callback is called once
      with its descriptor, the result, and its data. An op with a callback is called once with
      its descriptor and the result, a timer only if it has expired (-62, or 0); a read that
      brought something hands over its own buffer, not yet freed, with that many bytes. */
  lemma CompletionCalls(s: State, c: Completion)
    requires Inv(s, {}, {}) && c.id in s.inFlight
    ensures var p := s.live[c.id];
            var log := Process(s, c).log;
            match p.target
            case Wakeup => log == s.log
            case AdHocWrite(fd, hasCallback) =>
              var n := if c.result > 0 then c.result else 0;
              log == if hasCallback then s.log + [Fired(c.id, p.target, fd, c.result, c.rc, FromHeap, n)] else s.log
            case Op(i) =>
              i < |s.ops| &&
              var d := s.ops[i];
              log == if !d.hasCallback || (d.opType == TIMEOUT && c.result != -62 && c.result != 0) then s.log
                     else if d.opType == READ && c.result > 0
                     then s.log + [Fired(c.id, p.target, d.fd, c.result, c.rc, p.buffer, c.result)]
                     else s.log + [Fired(c.id, p.target, d.fd, c.result, c.rc, NoBuffer, 0)]
  {
    var seen := Seen(s, c.id);
    match s.live[c.id].target
    case Wakeup =>
    case AdHocWrite(fd, _) => CallLogs(seen, Firing(seen, s.live[c.id].target, fd, c, true), c);
    case Op(i) =>
      if s.ops[i].opType == TIMEOUT {
        CallLogs(seen, Firing(seen, Op(i), s.ops[i].fd, c, false), c);
      } else {
        var s1 := FreeRecord(seen, c.id);
        CallLogs(s1, Firing(s1, Op(i), s.ops[i].fd, c, s.ops[i].opType == READ && c.result > 0), c);
      }
  }

  // ---------------------------------------------------------------- what callbacks submit

  /** The writes among the effects that io_loop_submit_write accepts. */
  function Writes(es: seq<Effect>): (ws: seq<Effect>)
    ensures forall j :: 0 <= j < |ws| ==> ws[j].SubmitWrite?
  {
    if es == [] then []
    else
      var e := es[|es| - 1];
      Writes(es[..|es| - 1]) + if e.SubmitWrite? && e.fd >= 0 && e.length > 0 then [e] else []
  }

  /** Those writes are in flight, in order, under the numbers from `first` on. */
  ghost predicate Submitted(s: State, first: nat, ws: seq<Effect>)
    requires forall j :: 0 <= j < |ws| ==> ws[j].SubmitWrite?
  {
    forall j: nat :: j < |ws| ==> IsWriting(s, first + j, ws[j])
  }

  ghost predicate IsWriting(s: State, id: nat, w: Effect)
    requires w.SubmitWrite?
  {
    && id in s.inFlight && id in s.live && id in s.buffers
    && s.live[id] == Pending(AdHocWrite(w.fd, w.hasCallback), FromHeap) && s.buffers[id] == FromHeap
  }

  /** A callback's writes each get a record and a heap buffer of their own, and nothing else is
      submitted. */
  lemma {:induction false} EffectsSubmit(s: State, es: seq<Effect>)
    ensures var u := PerformAll(s, es);
            u.issued == s.issued + |Writes(es)| && Submitted(u, s.issued, Writes(es))
  {
    if es != [] {
      EffectsSubmit(s, es[..|es| - 1]);
      EffectSubmits(PerformAll(s, es[..|es| - 1]), s.issued, Writes(es[..|es| - 1]), es[|es| - 1]);
    }
  }

  lemma EffectSubmits(s: State, first: nat, ws: seq<Effect>, e: Effect)
    requires forall j :: 0 <= j < |ws| ==> ws[j].SubmitWrite?
    requires Submitted(s, first, ws) && s.issued == first + |ws|
    ensures var more := if e.SubmitWrite? && e.fd >= 0 && e.length > 0 then [e] else [];
            Perform(s, e).issued == first + |ws + more| && Submitted(Perform(s, e), first, ws + more)
  {
    var more := if e.SubmitWrite? && e.fd >= 0 && e.length > 0 then [e] else [];
    forall j: nat | j < |ws + more| ensures IsWriting(Perform(s, e), first + j, (ws + more)[j]) {
      if j < |ws| {
        assert IsWriting(s, first + j, ws[j]);
      }
    }
  }

  /** u is s after the request `id` was handled and `n` requests were submitted. */
  ghost predicate Handles(s: State, u: State, id: nat, n: nat) {
    && u.freed == s.freed + {id} && u.issued == s.issued + n
    && forall k :: k in s.inFlight && k in s.live && k != id ==>
         k in u.inFlight && k in u.live && u.live[k] == s.live[k]
  }

  lemma CallHandles(s: State, f: Fired, c: Completion)
    requires forall id :: id in s.live ==> id < s.issued
    ensures var u := Call(s, f, c);
            && u.freed == s.freed && u.issued == s.issued + |Writes(c.effects)|
            && Submitted(u, s.issued, Writes(c.effects))
            && forall k :: k in s.live ==>
                 k < s.issued && (k in u.inFlight <==> k in s.inFlight) && k in u.live && u.live[k] == s.live[k]
  {
    var s1 := s.(log := s.log + [f]);
    EffectsKeep(s1, c.effects);
    EffectsSubmit(s1, c.effects);
  }

  lemma WriteHandles(s: State, c: Completion)
    requires Inv(s, {}, {}) && c.id in s.inFlight && s.live[c.id].target.AdHocWrite?
    ensures var u := ProcessWrite(s, c);
            var ws := if s.live[c.id].target.hasCallback then Writes(c.effects) else [];
            Handles(s, u, c.id, |ws|) && Submitted(u, s.issued, ws)
  {
    var seen, p := Seen(s, c.id), s.live[c.id];
    CallHandles(seen, Firing(seen, p.target, p.target.fd, c, true), c);
    FreeKeepsSubmitted(Call(seen, Firing(seen, p.target, p.target.fd, c, true), c), s.issued, Writes(c.effects), c.id);
  }

  lemma FreeKeepsSubmitted(s: State, first: nat, ws: seq<Effect>, id: nat)
    requires forall j :: 0 <= j < |ws| ==> ws[j].SubmitWrite?
    requires Submitted(s, first, ws) && id < first && id in s.live
    ensures Submitted(s.(buffers := s.buffers - {id}, live := s.live - {id}), first, ws)
  {
    var u := s.(buffers := s.buffers - {id}, live := s.live - {id});
    forall j: nat | j < |ws| ensures IsWriting(u, first + j, ws[j]) {
      assert IsWriting(s, first + j, ws[j]);
    }
  }

  /** Another request, or none, after a completion's callback is over. */
  lemma ThenArms(s: State, s1: State, c: Completion, ws: seq<Effect>, target: Target, buffer: Buffer)
    requires forall j :: 0 <= j < |ws| ==> ws[j].SubmitWrite?
    requires Handles(s, s1, c.id, |ws|) && Submitted(s1, s.issued, ws)
    requires forall id :: id in s.live ==> id < s.issued
    ensures Handles(s, Submit(s1, target, buffer), c.id, |ws| + 1)
    ensures Submitted(Submit(s1, target, buffer), s.issued, ws)
  {
    var u := Submit(s1, target, buffer);
    forall j: nat | j < |ws| ensures IsWriting(u, s.issued + j, ws[j]) {
      assert IsWriting(s1, s.issued + j, ws[j]);
    }
  }

  function CalledWrites(c: Completion, called: bool): (ws: seq<Effect>)
    ensures forall j :: 0 <= j < |ws| ==> ws[j].SubmitWrite?
  {
    if called then Writes(c.effects) else []
  }

  /** A timer's completion up to where it may be armed again. */
  lemma TimeoutHandles(s: State, i: nat, c: Completion)
    requires Inv(s, {}, {}) && c.id in s.inFlight && s.live[c.id].target == Op(i) && s.ops[i].opType == TIMEOUT
    ensures var u := ProcessTimeout(s, i, c);
            var called := s.ops[i].hasCallback && (c.result == -62 || c.result == 0);
            var ws := CalledWrites(c, called);
            && Handles(s, u, c.id, |ws| + if InFlight(u, Op(i)) then 1 else 0) && Submitted(u, s.issued, ws)
  {
    TimeoutInv(s, i, c);
    var seen := Seen(s, c.id);
    var called := s.ops[i].hasCallback && (c.result == -62 || c.result == 0);
    var ws := CalledWrites(c, called);
    var f := Firing(seen, Op(i), s.ops[i].fd, c, false);
    var s1 := if called then Call(seen, f, c) else seen;
    CallHandles(seen, f, c);
    EffectsKeep(seen.(log := seen.log + [f]), c.effects);
    var s2 := FreeRecord(s1, c.id);
    FreedHandles(s, s1, s2, c, ws);
    if InFlight(ProcessTimeout(s, i, c), Op(i)) {
      ThenArms(s, s2, c, ws, Op(i), NoBuffer);
    }
  }

  /** Freeing the record after the call. */
  lemma FreedHandles(s: State, s1: State, s2: State, c: Completion, ws: seq<Effect>)
    requires forall j :: 0 <= j < |ws| ==> ws[j].SubmitWrite?
    requires (forall id :: id in s.live ==> id < s.issued) && c.id in s.live
    requires c.id in s1.live && c.id !in s1.inFlight && s2 == FreeRecord(s1, c.id)
    requires s1.freed == s.freed && s1.issued == s.issued + |ws| && Submitted(s1, s.issued, ws)
    requires forall k :: k in s.inFlight && k in s.live && k != c.id ==>
               k in s1.inFlight && k in s1.live && s1.live[k] == s.live[k]
    ensures Handles(s, s2, c.id, |ws|) && Submitted(s2, s.issued, ws)
  {
    forall j: nat | j < |ws| ensures IsWriting(s2, s.issued + j, ws[j]) {
      assert IsWriting(s1, s.issued + j, ws[j]);
    }
  }

  lemma FreeAndCallHandles(s: State, i: nat, c: Completion)
    requires Inv(s, {}, {}) && c.id in s.inFlight && s.live[c.id].target == Op(i)
    ensures var u := FreeAndCall(s, i, c);
            var ws := CalledWrites(c, s.ops[i].hasCallback);
            Handles(s, u, c.id, |ws|) && Submitted(u, s.issued, ws)
  {
    var s1 := FreeRecord(Seen(s, c.id), c.id);
    CallHandles(s1, Firing(s1, Op(i), s.ops[i].fd, c, s.ops[i].opType == READ && c.result > 0), c);
  }

  lemma ReadHandles(s: State, i: nat, c: Completion)
    requires Inv(s, {}, {}) && c.id in s.inFlight && s.live[c.id].target == Op(i) && s.ops[i].opType == READ
    ensures var u := ProcessRead(s, i, c);
            var ws := CalledWrites(c, s.ops[i].hasCallback);
            && Handles(s, u, c.id, |ws| + if InFlight(u, Op(i)) then 1 else 0) && Submitted(u, s.issued, ws)
  {
    ReadInv(s, i, c);
    ReadFrees(s, i, c);
    var s2 := FreeBuffer(FreeAndCall(s, i, c), c.id, s.live[c.id].buffer);
    ReadArms(s, i, c, s2, ProcessRead(s, i, c));
    if InFlight(ProcessRead(s, i, c), Op(i)) {
      ThenArms(s, s2, c, CalledWrites(c, s.ops[i].hasCallback), Op(i), if c.poolGives then FromPool else FromHeap);
    }
  }

  lemma ReadArms(s: State, i: nat, c: Completion, s2: State, u: State)
    requires Inv(s, {}, {}) && c.id in s.inFlight && s.live[c.id].target == Op(i) && s.ops[i].opType == READ
    requires s2 == FreeBuffer(FreeAndCall(s, i, c), c.id, s.live[c.id].buffer) && u == ProcessRead(s, i, c)
    ensures |u.ops| == |s.ops|
    ensures u == if Rearms(s.ops[i], u.ops[i], c)
                 then Submit(s2, Op(i), if c.poolGives then FromPool else FromHeap) else s2
  {
    ReadInv(s, i, c);
  }

  /** A read's completion up to where it may be armed again. */
  lemma ReadFrees(s: State, i: nat, c: Completion)
    requires Inv(s, {}, {}) && c.id in s.inFlight && s.live[c.id].target == Op(i) && s.ops[i].opType == READ
    ensures var s1 := FreeBuffer(FreeAndCall(s, i, c), c.id, s.live[c.id].buffer);
            var ws := CalledWrites(c, s.ops[i].hasCallback);
            Handles(s, s1, c.id, |ws|) && Submitted(s1, s.issued, ws)
  {
    FreeAndCallHandles(s, i, c);
    var ws := CalledWrites(c, s.ops[i].hasCallback);
    var s1 := FreeAndCall(s, i, c);
    var s2 := FreeBuffer(s1, c.id, s.live[c.id].buffer);
    forall j: nat | j < |ws| ensures IsWriting(s2, s.issued + j, ws[j]) {
      assert IsWriting(s1, s.issued + j, ws[j]);
    }
  }

  lemma PollHandles(s: State, i: nat, c: Completion)
    requires Inv(s, {}, {}) && c.id in s.inFlight && s.live[c.id].target == Op(i) && s.ops[i].opType == POLL
    ensures var u := ProcessPoll(s, i, c);
            var ws := CalledWrites(c, s.ops[i].hasCallback);
            && Handles(s, u, c.id, |ws| + if InFlight(u, Op(i)) then 1 else 0) && Submitted(u, s.issued, ws)
  {
    PollInv(s, i, c);
    FreeAndCallHandles(s, i, c);
    if InFlight(ProcessPoll(s, i, c), Op(i)) {
      ThenArms(s, FreeAndCall(s, i, c), c, CalledWrites(c, s.ops[i].hasCallback), Op(i), NoBuffer);
    }
  }

  lemma WakeupHandles(s: State, c: Completion)
    requires Inv(s, {}, {}) && c.id in s.inFlight && s.live[c.id].target == Wakeup
    ensures Handles(s, ProcessWakeup(s, c), c.id, if c.running then 1 else 0)
  {
  }

  /** Whether a completion calls a callback. */
  predicate Calls(ops: seq<OpDesc>, p: Pending, c: Completion) {
    match p.target
    case Wakeup => false
    case AdHocWrite(_, hasCallback) => hasCallback
    case Op(i) =>
      i < |ops| && ops[i].hasCallback && (ops[i].opType == TIMEOUT ==> c.result == -62 || c.result == 0)
  }

  /** What a completion does besides: its request is over and its record freed; every other
      request stays in flight as it was; the writes of the callback that was called are in
      flight; and the only further request is the one that arms the same target again. */
  lemma CompletionHandles(s: State, c: Completion)
    requires Inv(s, {}, {}) && c.id in s.inFlight
    ensures var p, u := s.live[c.id], Process(s, c);
            var ws := CalledWrites(c, Calls(s.ops, p, c));
            var armed := !p.target.AdHocWrite? && InFlight(u, p.target);
            Handles(s, u, c.id, |ws| + if armed then 1 else 0) && Submitted(u, s.issued, ws)
  {
    match s.live[c.id].target
    case Wakeup =>
      WakeupInv(s, c);
      WakeupHandles(s, c);
    case AdHocWrite(_, _) => WriteHandles(s, c);
    case Op(i) =>
      if s.ops[i].opType == TIMEOUT {
        TimeoutHandles(s, i, c);
      } else if s.ops[i].opType == READ {
        ReadHandles(s, i, c);
      } else {
        PollHandles(s, i, c);
      }
  }

  // ---------------------------------------------------------------- whole runs

  /** The calls made for one request. */
  function CallsFor(log: seq<Fired>, id: nat): seq<Fired>
    decreases |log|
  {
    if log == [] then []
    else CallsFor(log[..|log| - 1], id) + if log[|log| - 1].request == id then [log[|log| - 1]] else []
  }

  lemma CallsForSnoc(log: seq<Fired>, f: Fired, id: nat)
    ensures CallsFor(log + [f], id) == CallsFor(log, id) + if f.request == id then [f] else []
  {
    assert (log + [f])[..|log|] == log;
  }

  /** One completion: only its own request is called for. */
  lemma CompletionCallsFor(s: State, c: Completion, id: nat)
    requires Inv(s, {}, {}) && c.id in s.inFlight
    ensures id != c.id ==> CallsFor(Process(s, c).log, id) == CallsFor(s.log, id)
    ensures id == c.id ==>
              |CallsFor(Process(s, c).log, id)| == |CallsFor(s.log, id)| + if Calls(s.ops, s.live[id], c) then 1 else 0
  {
    CompletionCalls(s, c);
    var log := Process(s, c).log;
    if Calls(s.ops, s.live[c.id], c) {
      assert |log| == |s.log| + 1 && log == s.log + [log[|s.log|]];
      CallsForSnoc(s.log, log[|s.log|], id);
    }
  }

  /** Request `id` is still what it was, and has not been called for since. */
  ghost predicate Waits(s: State, u: State, id: nat) {
    && id in s.live && id in u.inFlight && id in u.live && u.live[id] == s.live[id]
    && CallsFor(u.log, id) == CallsFor(s.log, id)
  }

  /** The write `id` is over, its record freed, and its callback has been called once with
      this result if it has one, and not otherwise. */
  ghost predicate WriteIsOver(s: State, u: State, id: nat, c: Completion)
    requires id in s.live && s.live[id].target.AdHocWrite?
  {
    var t := s.live[id].target;
    var n := if c.result > 0 then c.result else 0;
    && id in u.freed && id !in u.inFlight
    && CallsFor(u.log, id) ==
       CallsFor(s.log, id) + if t.hasCallback then [Fired(id, t, t.fd, c.result, c.rc, FromHeap, n)] else []
  }

  lemma WriteStep(s: State, u: State, id: nat, c: Completion)
    requires Inv(u, {}, {}) && Waits(s, u, id) && s.live[id].target.AdHocWrite? && c.id in u.inFlight
    ensures c.id != id ==> Waits(s, Process(u, c), id)
    ensures c.id == id ==> WriteIsOver(s, Process(u, c), id, c)
  {
    CompletionHandles(u, c);
    CompletionCallsFor(u, c, id);
    ProcessInv(u, c);
    if c.id == id && s.live[id].target.hasCallback {
      CompletionCalls(u, c);
      CallsForSnoc(u.log, Process(u, c).log[|u.log|], id);
    }
  }

  lemma OverStaysOver(s: State, u: State, id: nat, done: Completion, c: Completion)
    requires id in s.live && s.live[id].target.AdHocWrite? && WriteIsOver(s, u, id, done)
    requires Inv(u, {}, {}) && c.id in u.inFlight
    ensures c.id != id && WriteIsOver(s, Process(u, c), id, done)
  {
    CompletionHandles(u, c);
    CompletionCallsFor(u, c, id);
    ProcessInv(u, c);
  }

  /** How the write `id` stands in u, after these completions since s. */
  ghost predicate Stands(s: State, u: State, id: nat, cs: seq<Completion>)
    requires id in s.live && s.live[id].target.AdHocWrite?
  {
    && ((forall j :: 0 <= j < |cs| ==> cs[j].id != id) ==> Waits(s, u, id))
    && forall j :: 0 <= j < |cs| && cs[j].id == id ==>
         WriteIsOver(s, u, id, cs[j]) && forall i :: 0 <= i < |cs| && i != j ==> cs[i].id != id
  }

  lemma StandsStep(s: State, u: State, id: nat, cs: seq<Completion>, c: Completion)
    requires id in s.live && s.live[id].target.AdHocWrite? && Stands(s, u, id, cs)
    requires Inv(u, {}, {}) && c.id in u.inFlight
    ensures Stands(s, Process(u, c), id, cs + [c])
  {
    var all := cs + [c];
    if j :| 0 <= j < |cs| && cs[j].id == id {
      OverStaysOver(s, u, id, cs[j], c);
      assert all[j].id == id;
    } else {
      WriteStep(s, u, id, c);
      assert all[|cs|] == c;
    }
  }

  lemma StandsAlong(s: State, trace: seq<State>, cs: seq<Completion>, id: nat, k: nat)
    requires IsTrace(trace, cs) && k < |cs| && Inv(trace[k], {}, {})
    requires id in s.live && s.live[id].target.AdHocWrite? && Stands(s, trace[k], id, cs[..k])
    ensures Inv(trace[k + 1], {}, {}) && Stands(s, trace[k + 1], id, cs[..k + 1])
  {
    assert Linked(trace, cs, k);
    var u, c := trace[k], cs[k];
    ProcessInv(u, c);
    StandsStep(s, u, id, cs[..k], c);
    assert cs[..k + 1] == cs[..k] + [c];
  }

  lemma {:induction false} WriteAlong(s: State, trace: seq<State>, cs: seq<Completion>, id: nat, k: nat)
    requires IsTrace(trace, cs) && Inv(s, {}, {}) && k <= |cs| && trace[0] == s
    requires id in s.inFlight && id in s.live && s.live[id].target.AdHocWrite?
    ensures Inv(trace[k], {}, {}) && Stands(s, trace[k], id, cs[..k])
  {
    if k > 0 {
      WriteAlong(s, trace, cs, id, k - 1);
      StandsAlong(s, trace, cs, id, k - 1);
    } else {
      assert cs[..0] == [];
      assert Waits(s, s, id);
    }
  }

  /** Over every run, a write in flight at its start waits, not called for, until a completion
      of its own comes; that comes once at most; and then its callback has been called exactly
      once, with that completion's result. */
  lemma WriteIsCalledOnce(s: State, cs: seq<Completion>, u: State, id: nat)
    requires Inv(s, {}, {}) && Run(s, cs, u)
    requires id in s.inFlight && s.live[id].target.AdHocWrite?
    ensures (forall j :: 0 <= j < |cs| ==> cs[j].id != id) ==> Waits(s, u, id)
    ensures forall j :: 0 <= j < |cs| && cs[j].id == id ==>
              WriteIsOver(s, u, id, cs[j]) && forall i :: 0 <= i < |cs| && i != j ==> cs[i].id != id
  {
    var trace :| IsTrace(trace, cs) && trace[0] == s && trace[|cs|] == u;
    WriteAlong(s, trace, cs, id, |cs|);
    assert cs[..|cs|] == cs;
  }

  /** How many of these completions call a callback for a target, told from the states before them. */
  ghost function CallingOf(trace: seq<State>, cs: seq<Completion>, t: Target, k: nat): nat
    requires k <= |cs| && k <= |trace|
  {
    if k == 0 then 0
    else
      var s, c := trace[k - 1], cs[k - 1];
      CallingOf(trace, cs, t, k - 1)
      + if c.id in s.live && s.live[c.id].target == t && Calls(s.ops, s.live[c.id], c) then 1 else 0
  }

  lemma CallsStep(s: State, c: Completion, t: Target)
    requires Inv(s, {}, {}) && c.id in s.inFlight
    ensures CallsOf(Process(s, c).log, t) ==
            CallsOf(s.log, t) + if s.live[c.id].target == t && Calls(s.ops, s.live[c.id], c) then 1 else 0
  {
    CompletionCalls(s, c);
    var log := Process(s, c).log;
    if Calls(s.ops, s.live[c.id], c) {
      assert log[..|log| - 1] == s.log;
    }
  }

  /** Over every run, each target is called as often as its completions call for. */
  lemma {:induction false} CallsAreCompletions(trace: seq<State>, cs: seq<Completion>, t: Target, k: nat)
    requires IsTrace(trace, cs) && k <= |cs|
    ensures CallsOf(trace[k].log, t) == CallsOf(trace[0].log, t) + CallingOf(trace, cs, t, k)
  {
    if k > 0 {
      CallsAreCompletions(trace, cs, t, k - 1);
      assert Linked(trace, cs, k - 1);
      CallsStep(trace[k - 1], cs[k - 1], t);
    }
  }
}
