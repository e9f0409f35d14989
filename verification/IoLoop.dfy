/** The event loop in its own form: an op table, heap records, and a dispatch loop. */
module IoLoop {
  import opened M = IoLoopModel

  class Loop {
    var ops: seq<OpDesc>
    var live: map<nat, Pending>
    var inFlight: set<nat>
    var buffers: map<nat, Buffer>
    var issued: nat
    ghost var freed: set<nat>
    ghost var log: seq<Fired>

    ghost function State(): M.State
      reads this
    {
      M.State(ops, live, inFlight, buffers, issued, freed, log)
    }

    constructor ()
      ensures State() == Fresh([])
    {
      ops, live, inFlight, buffers, issued, freed, log := [], map[], {}, map[], 0, {}, [];
    }

    /** Registers an op: the slot used, or -1 when the table is full. */
    method Register(d: OpDesc) returns (slot: int)
      modifies this
      ensures State() == old(State()).(ops := RegisterOp(old(ops), d).0) && slot == RegisterOp(old(ops), d).1
    {
      var i := 0;
      while i < |ops|
        invariant 0 <= i <= |ops|
        invariant FreeSlot(ops, d.opType, i) == FreeSlot(ops, d.opType, 0)
        invariant State() == old(State())
      {
        if ops[i].fd < 0 && ops[i].opType == d.opType {
          ops := ops[i := d];
          return i;
        }
        i := i + 1;
      }
      if |ops| >= MAX_OPS {
        return -1;
      }
      ops := ops + [d];
      return |ops| - 1;
    }

    /** Clears the first op with the descriptor: 0, or a negative answer when there is none
        or the descriptor is no valid one. */
    method UnregisterFd(fd: int) returns (rc: int)
      modifies this
      ensures State() == Perform(old(State()), Unregister(fd))
      ensures rc == if fd < 0 then -EINVAL else if exists d :: d in old(ops) && d.fd == fd then 0 else -1
    {
      if fd < 0 {
        return -EINVAL;
      }
      var i := 0;
      while i < |ops|
        invariant 0 <= i <= |ops|
        invariant FirstWith(ops, fd, i) == FirstWith(ops, fd, 0)
        invariant State() == old(State())
      {
        if ops[i].fd == fd {
          ops := ops[i := ops[i].(fd := -1)];
          return 0;
        }
        i := i + 1;
      }
      return -1;
    }

    /** Allocates a record, and a buffer if it needs one, and hands the request over. */
    method Submit(target: Target, buffer: Buffer)
      modifies this
      ensures State() == M.Submit(old(State()), target, buffer)
    {
      var id := issued;
      issued := issued + 1;
      live := live[id := Pending(target, buffer)];
      if buffer != NoBuffer {
        buffers := buffers[id := buffer];
      }
      inFlight := inFlight + {id};
    }

    method SubmitWrite(fd: int, length: nat, hasCallback: bool)
      modifies this
      ensures State() == Perform(old(State()), M.SubmitWrite(fd, length, hasCallback))
    {
      if fd < 0 || length == 0 {
        return;
      }
      Submit(AdHocWrite(fd, hasCallback), FromHeap);
    }

    method SubmitReadOp(i: nat, poolGives: bool)
      requires i < |ops|
      modifies this
      ensures State() == SubmitRead(old(State()), i, poolGives)
    {
      if ops[i].fd < 0 || ops[i].bufSize == 0 {
        return;
      }
      Submit(Op(i), if poolGives then FromPool else FromHeap);
    }

    method SubmitPollOp(i: nat)
      requires i < |ops|
      modifies this
      ensures State() == SubmitPoll(old(State()), i)
    {
      if ops[i].fd < 0 {
        return;
      }
      Submit(Op(i), NoBuffer);
    }

    method Free(id: nat)
      requires id in live && id !in inFlight
      modifies this
      ensures State() == FreeRecord(old(State()), id)
    {
      live := live - {id};
      freed := freed + {id};
    }

    method FreeBuf(id: nat, buffer: Buffer)
      requires buffer != NoBuffer ==> id in buffers && buffers[id] == buffer
      modifies this
      ensures State() == FreeBuffer(old(State()), id, buffer)
    {
      if buffer != NoBuffer {
        buffers := buffers - {id};
      }
    }

    /** Runs a callback: it is logged with the arguments it is given, and does to the loop what
        the completion says. */
    method Invoke(target: Target, fd: int, data: Buffer, length: nat, c: Completion)
      modifies this
      ensures State() == Call(old(State()), Fired(c.id, target, fd, c.result, c.rc, data, length), c)
    {
      log := log + [Fired(c.id, target, fd, c.result, c.rc, data, length)];
      ghost var s := State();
      var k := 0;
      while k < |c.effects|
        invariant 0 <= k <= |c.effects|
        invariant State() == PerformAll(s, c.effects[..k])
      {
        assert c.effects[..k + 1][..k] == c.effects[..k];
        match c.effects[k] {
          case SubmitWrite(fd, n, cb) => SubmitWrite(fd, n, cb);
          case Unregister(fd) => var _ := UnregisterFd(fd);
        }
        k := k + 1;
      }
      assert c.effects[..k] == c.effects;
    }

    method ProcessTimeoutCqe(i: nat, c: Completion)
      requires Shaped(State()) && c.id in inFlight && i < |ops| && live[c.id].buffer == NoBuffer
      modifies this
      ensures State() == ProcessTimeout(old(State()), i, c)
    {
      ghost var s := Seen(State(), c.id);
      inFlight := inFlight - {c.id};
      var rc := 0;
      if ops[i].hasCallback && (c.result == -ETIME || c.result == 0) {
        CallKeeps(s, Firing(s, Op(i), ops[i].fd, c, false), c);
        Invoke(Op(i), ops[i].fd, NoBuffer, 0, c);
        rc := c.rc;
      }
      Free(c.id);
      if c.running && rc == 0 && ops[i].fd >= -1 {
        Submit(Op(i), NoBuffer);
      }
    }

    method ProcessReadCqe(i: nat, c: Completion)
      requires Shaped(State()) && c.id in inFlight && i < |ops| && ops[i].opType == READ
      modifies this
      ensures State() == ProcessRead(old(State()), i, c)
    {
      var buffer := live[c.id].buffer;
      inFlight := inFlight - {c.id};
      Free(c.id);
      var rc := 0;
      if ops[i].hasCallback {
        CallKeeps(State(), Firing(State(), Op(i), ops[i].fd, c, c.result > 0), c);
        if c.result <= 0 {
          Invoke(Op(i), ops[i].fd, NoBuffer, 0, c);
        } else {
          Invoke(Op(i), ops[i].fd, buffer, c.result, c);
        }
        rc := c.rc;
      }
      FreeBuf(c.id, buffer);
      if c.running && c.result > 0 && rc == 0 && ops[i].fd >= 0 {
        SubmitReadOp(i, c.poolGives);
      }
    }

    method ProcessPollCqe(i: nat, c: Completion)
      requires Shaped(State()) && c.id in inFlight && i < |ops| && ops[i].opType != READ
      modifies this
      ensures State() == ProcessPoll(old(State()), i, c)
    {
      inFlight := inFlight - {c.id};
      Free(c.id);
      var rc := 0;
      if ops[i].hasCallback {
        CallKeeps(State(), Firing(State(), Op(i), ops[i].fd, c, false), c);
        Invoke(Op(i), ops[i].fd, NoBuffer, 0, c);
        rc := c.rc;
      }
      if c.running && c.result > 0 && rc == 0 && ops[i].fd >= 0 {
        SubmitPollOp(i);
      }
    }

    method ProcessWriteCqe(c: Completion)
      requires Shaped(State()) && c.id in inFlight && live[c.id].target.AdHocWrite?
      modifies this
      ensures State() == ProcessWrite(old(State()), c)
    {
      var p := live[c.id];
      ghost var s := Seen(State(), c.id);
      inFlight := inFlight - {c.id};
      if p.target.hasCallback {
        CallKeeps(s, Firing(s, p.target, p.target.fd, c, true), c);
        Invoke(p.target, p.target.fd, p.buffer, if c.result > 0 then c.result else 0, c);
      }
      FreeBuf(c.id, p.buffer);
      Free(c.id);
    }

    /** Dispatches one completion. */
    method ProcessCqe(c: Completion)
      requires Inv(State(), {}, {}) && c.id in inFlight
      modifies this
      ensures State() == Process(old(State()), c) && Inv(State(), {}, {})
    {
      ProcessInv(State(), c);
      match live[c.id].target {
        case Wakeup =>
          inFlight := inFlight - {c.id};
          FreeBuf(c.id, live[c.id].buffer);
          Free(c.id);
          if c.running {
            Submit(Wakeup, FromHeap);
          }
        case AdHocWrite(_, _) => ProcessWriteCqe(c);
        case Op(i) =>
          if ops[i].opType == TIMEOUT {
            ProcessTimeoutCqe(i, c);
          } else if ops[i].opType == READ {
            ProcessReadCqe(i, c);
          } else {
            ProcessPollCqe(i, c);
          }
      }
    }

    /** Puts the first request of every op, and the wakeup's, in flight. */
    method StartRequests(pool: seq<bool>)
      requires State() == Fresh(ops) && |pool| == |ops|
      modifies this
      ensures State() == Start(old(ops), pool)
    {
      ghost var table := ops;
      var i := 0;
      while i < |ops|
        invariant 0 <= i <= |table| && ops == table
        invariant State() == StartOps(table, i, pool)
      {
        var d := ops[i];
        if d.opType == READ && d.fd >= 0 {
          SubmitReadOp(i, pool[i]);
        } else if d.opType == POLL && d.fd >= 0 {
          SubmitPollOp(i);
        } else if d.opType == TIMEOUT {
          Submit(Op(i), NoBuffer);
        }
        i := i + 1;
      }
      Submit(Wakeup, FromHeap);
    }

    /** Handles the next completion of a legal script. */
    method ProcessNext(ghost s: State, script: seq<Completion>, n: nat)
      requires n < |script|
      requires M.Run(s, script[..n], State()) && Legal(State(), script[n..])
      modifies this
      ensures M.Run(s, script[..n + 1], State()) && Legal(State(), script[n + 1..])
    {
      ghost var v := DispatchStep(s, script, n, State());
      ProcessCqe(script[n]);
      assert State() == v;
    }

    /** Handles completions one by one while the flag is set, until one leaves it clear or the
        script ends. */
    method Dispatch(flag: bool, script: seq<Completion>) returns (n: nat)
      requires Inv(State(), {}, {}) && Legal(State(), script)
      modifies this
      ensures n <= |script| && M.Run(old(State()), script[..n], State()) && Inv(State(), {}, {})
      ensures n < |script| ==> if n == 0 then !flag else !script[n - 1].running
      ensures !flag ==> n == 0
      ensures forall k :: 0 <= k < n - 1 ==> script[k].running
    {
      ghost var s := State();
      RunNothing(s);
      assert script[..0] == [] && script[0..] == script;
      n := 0;
      var running := flag;
      while running && n < |script|
        invariant n <= |script|
        invariant M.Run(s, script[..n], State()) && Legal(State(), script[n..])
        invariant running == if n == 0 then flag else script[n - 1].running
        invariant !flag ==> n == 0
        invariant forall k :: 0 <= k < n - 1 ==> script[k].running
      {
        ProcessNext(s, script, n);
        running := script[n].running;
        n := n + 1;
      }
      RunInv(s, script[..n], State());
    }

    /** io_loop_run on a fresh loop, with the stop flag at its entry; n tells how many
        completions were handled. */
    method RunLoop(flag: bool, pool: seq<bool>, script: seq<Completion>) returns (n: nat)
      requires State() == Fresh(ops) && |pool| == |ops|
      requires Legal(Start(ops, pool), script)
      modifies this
      ensures n <= |script| && M.Run(Start(old(ops), pool), script[..n], State()) && Inv(State(), {}, {})
      ensures n < |script| ==> if n == 0 then !flag else !script[n - 1].running
      ensures !flag ==> n == 0
    {
      StartInv(ops, pool);
      StartRequests(pool);
      n := Dispatch(flag, script);
    }
  }
}
