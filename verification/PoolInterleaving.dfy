/** Many threads on a locked pool. Finding, marking and freeing a block happen under the
    lock and are single steps; clearing the block happens after the lock is released, one
    byte at a time, interleaved with everything the other threads do. */
module PoolInterleaving {
  import opened Bytes
  import opened SlotLayout
  import M = PoolModel

  type Thread = nat

  /** A thread between leaving the lock and returning from its allocation. */
  datatype Clearing = Clearing(block: nat, done: set<nat>)

  /** `owner` says which thread a used block was handed to; `view` is what the owner of a
      returned block expects in it: zeros, then what was stored. */
  datatype State = State(
    pool: M.Pool,
    data: seq<Byte>,
    clearing: map<Thread, Clearing>,
    owner: map<nat, Thread>,
    view: map<nat, Item>)

  /** Threads respect ownership: they store to, pass on and free only what they hold. */
  datatype Action =
    | Alloc(thread: Thread)
    | ClearByte(thread: Thread, k: nat)
    | AllocReturn(thread: Thread)
    | Store(thread: Thread, block: nat, k: nat, value: Byte)
    | Give(thread: Thread, block: nat, to: Thread)
    | Free(thread: Thread, block: nat)

  ghost predicate Shaped(c: Layout, s: State) {
    && c.Holds(s.data) && c.itemSize > 0
    && s.pool.total == c.capacity && M.Consistent(s.pool)
    && (forall t :: t in s.clearing ==> s.clearing[t].block < c.capacity)
    && (forall b :: b in s.view ==> b < c.capacity && |s.view[b]| == c.itemSize)
  }

  ghost predicate Holds(s: State, t: Thread, b: nat) {
    b in s.view && b in s.owner && s.owner[b] == t
  }

  ghost predicate Enabled(c: Layout, s: State, a: Action)
    requires Shaped(c, s)
  {
    match a
    case Alloc(t) => t !in s.clearing
    case ClearByte(t, k) => t in s.clearing && k < c.itemSize && k !in s.clearing[t].done
    case AllocReturn(t) => t in s.clearing && forall k: nat :: k < c.itemSize ==> k in s.clearing[t].done
    case Store(t, b, k, _) => Holds(s, t, b) && k < c.itemSize
    case Give(t, b, _) => Holds(s, t, b)
    case Free(t, b) => Holds(s, t, b)
  }

  ghost function Apply(c: Layout, s: State, a: Action): State
    requires Shaped(c, s) && Enabled(c, s, a)
  {
    match a
    case Alloc(t) =>
      var b := M.LowestFrom(s.pool, 0);
      var pool := M.Step(s.pool, M.Alloc);
      if b < c.capacity
      then s.(pool := pool, clearing := s.clearing[t := Clearing(b, {})], owner := s.owner[b := t])
      else s.(pool := pool)
    case ClearByte(t, k) =>
      var w := s.clearing[t];
      s.(data := c.Poke(s.data, w.block, k, 0), clearing := s.clearing[t := w.(done := w.done + {k})])
    case AllocReturn(t) =>
      var zeros: Item := seq(c.itemSize, _ => 0);
      s.(clearing := s.clearing - {t}, view := s.view[s.clearing[t].block := zeros])
    case Store(t, b, k, v) =>
      var item: Item := s.view[b][k := v];
      s.(data := c.Poke(s.data, b, k, v), view := s.view[b := item])
    case Give(t, b, u) => s.(owner := s.owner[b := u])
    case Free(t, b) =>
      s.(pool := M.Step(s.pool, M.Free(b)), owner := s.owner - {b}, view := s.view - {b})
  }

  ghost predicate Init(c: Layout, s: State) {
    && Shaped(c, s)
    && s.pool == M.Empty(c.capacity) && s.clearing == map[] && s.owner == map[] && s.view == map[]
  }

  ghost predicate Inv(c: Layout, s: State) {
    && Shaped(c, s)
    && s.owner.Keys == s.pool.used && s.view.Keys <= s.pool.used
    && (forall t :: t in s.clearing ==>
          var w := s.clearing[t];
          && w.block in s.owner && s.owner[w.block] == t && w.block !in s.view
          && forall k: nat :: k < c.itemSize && k in w.done ==> c.Slot(s.data, w.block)[k] == 0)
    && (forall b :: b in s.view ==> c.Slot(s.data, b) == s.view[b])
  }

  lemma PokeStep(c: Layout, s: State, b: nat, k: nat, v: Byte)
    requires Shaped(c, s) && b < c.capacity && k < c.itemSize
    ensures forall o: nat :: o < c.capacity ==>
              c.Slot(c.Poke(s.data, b, k, v), o) == if o == b then c.Slot(s.data, b)[k := v] else c.Slot(s.data, o)
  {
    forall o: nat | o < c.capacity
      ensures c.Slot(c.Poke(s.data, b, k, v), o) == if o == b then c.Slot(s.data, b)[k := v] else c.Slot(s.data, o)
    {
      c.PokeIsLocal(s.data, b, k, v, o);
    }
  }

  lemma AllocStep(c: Layout, s: State, t: Thread)
    requires Inv(c, s) && Enabled(c, s, Alloc(t))
    ensures Inv(c, Apply(c, s, Alloc(t)))
  {
    M.StepKeepsConsistent(s.pool, M.Alloc);
    var b := M.LowestFrom(s.pool, 0);
    if b < c.capacity {
      HandedOut(c, s, t, b);
    } else {
      PoolMoves(c, s, M.Step(s.pool, M.Alloc));
    }
  }

  /** A step that changes the pool's counters alone. */
  lemma PoolMoves(c: Layout, s: State, pool: M.Pool)
    requires Inv(c, s) && M.Consistent(pool) && pool.total == s.pool.total && pool.used == s.pool.used
    ensures Inv(c, s.(pool := pool))
  {
  }

  lemma HandedOut(c: Layout, s: State, t: Thread, b: nat)
    requires Inv(c, s) && t !in s.clearing && M.IsLowestFree(s.pool, b) && M.Consistent(M.Taken(s.pool, b))
    ensures Inv(c, s.(pool := M.Taken(s.pool, b), clearing := s.clearing[t := Clearing(b, {})],
                      owner := s.owner[b := t]))
  {
    var u := s.(pool := M.Taken(s.pool, b), clearing := s.clearing[t := Clearing(b, {})], owner := s.owner[b := t]);
    assert u.owner.Keys == s.owner.Keys + {b};
    assert b !in s.owner;
  }

  lemma ClearStep(c: Layout, s: State, t: Thread, k: nat)
    requires Inv(c, s) && Enabled(c, s, ClearByte(t, k))
    ensures Inv(c, Apply(c, s, ClearByte(t, k)))
  {
    PokeStep(c, s, s.clearing[t].block, k, 0);
  }

  lemma ReturnStep(c: Layout, s: State, t: Thread)
    requires Inv(c, s) && Enabled(c, s, AllocReturn(t))
    ensures Inv(c, Apply(c, s, AllocReturn(t)))
  {
    var b := s.clearing[t].block;
    assert c.Slot(s.data, b) == Apply(c, s, AllocReturn(t)).view[b];
  }

  lemma StoreStep(c: Layout, s: State, t: Thread, b: nat, k: nat, v: Byte)
    requires Inv(c, s) && Enabled(c, s, Store(t, b, k, v))
    ensures Inv(c, Apply(c, s, Store(t, b, k, v)))
  {
    PokeStep(c, s, b, k, v);
  }

  lemma FreeStep(c: Layout, s: State, t: Thread, b: nat)
    requires Inv(c, s) && Enabled(c, s, Free(t, b))
    ensures Inv(c, Apply(c, s, Free(t, b)))
  {
    M.StepKeepsConsistent(s.pool, M.Free(b));
  }

  lemma StepKeepsInv(c: Layout, s: State, a: Action)
    requires Inv(c, s) && Enabled(c, s, a)
    ensures Inv(c, Apply(c, s, a))
  {
    match a
    case Alloc(t) => AllocStep(c, s, t);
    case ClearByte(t, k) => ClearStep(c, s, t, k);
    case AllocReturn(t) => ReturnStep(c, s, t);
    case Store(t, b, k, v) => StoreStep(c, s, t, b, k, v);
    case Give(t, b, u) =>
    case Free(t, b) => FreeStep(c, s, t, b);
  }

  /** No step of one thread, its unlocked clearing included, alters a block that another
      thread has been given and has not freed. */
  lemma OthersBlocksUntouched(c: Layout, s: State, a: Action, b: nat)
    requires Inv(c, s) && Enabled(c, s, a)
    requires b in s.view && s.owner[b] != a.thread
    ensures c.Slot(Apply(c, s, a).data, b) == c.Slot(s.data, b) == s.view[b]
  {
    match a
    case ClearByte(t, k) => PokeStep(c, s, s.clearing[t].block, k, 0);
    case Store(_, o, k, v) => PokeStep(c, s, o, k, v);
    case _ =>
  }

  ghost predicate Run(c: Layout, s: State, acts: seq<Action>, t: State)
    decreases |acts|
  {
    if acts == [] then s == t
    else Shaped(c, s) && Enabled(c, s, acts[0]) && Run(c, Apply(c, s, acts[0]), acts[1..], t)
  }

  lemma {:induction false} RunKeepsInv(c: Layout, s: State, acts: seq<Action>, t: State)
    requires Inv(c, s) && Run(c, s, acts, t)
    ensures Inv(c, t)
    decreases |acts|
  {
    if acts != [] {
      StepKeepsInv(c, s, acts[0]);
      RunKeepsInv(c, Apply(c, s, acts[0]), acts[1..], t);
    }
  }

  /** In every interleaving a block in a thread's hands holds exactly zeros overwritten by
      the stores its successive owners made, no two threads clear the same block, and a
      block being cleared is in no one else's hands. */
  lemma OwnersSeeTheirOwnBytes(c: Layout, s: State, acts: seq<Action>, t: State)
    requires Init(c, s) && Run(c, s, acts, t)
    ensures Shaped(c, t) && forall b :: b in t.view ==> c.Slot(t.data, b) == t.view[b]
    ensures forall u, v :: u in t.clearing && v in t.clearing && u != v ==>
              t.clearing[u].block != t.clearing[v].block
    ensures forall u :: u in t.clearing ==> t.clearing[u].block in t.pool.used && t.clearing[u].block !in t.view
    ensures Inv(c, t)
  {
    RunKeepsInv(c, s, acts, t);
  }

  /** An allocation takes the lowest free block for its thread, and fails, changing nothing but
      the count of failures, exactly when none is free; and when it returns its thread holds
      that block, all zeros. */
  lemma AllocGivesZeroedBlock(c: Layout, s: State, t: Thread)
    requires Inv(c, s)
    ensures Enabled(c, s, Alloc(t)) ==>
              var u := Apply(c, s, Alloc(t));
              if M.Exhausted(s.pool) then u == s.(pool := s.pool.(fails := s.pool.fails + 1))
              else t in u.clearing && M.IsLowestFree(s.pool, u.clearing[t].block)
                   && u.pool.used == s.pool.used + {u.clearing[t].block}
    ensures Enabled(c, s, AllocReturn(t)) ==>
              var u, b := Apply(c, s, AllocReturn(t)), s.clearing[t].block;
              Inv(c, u) && Holds(u, t, b) && forall k: nat :: k < c.itemSize ==> c.Slot(u.data, b)[k] == 0
  {
    if Enabled(c, s, AllocReturn(t)) {
      ReturnStep(c, s, t);
    }
  }

  /** What an owner does to its block takes effect: a stored byte is there, a block given away
      is the other's, and a freed block is free again. */
  lemma OwnerStepsTakeEffect(c: Layout, s: State, a: Action)
    requires Inv(c, s) && Enabled(c, s, a)
    ensures a.Store? ==>
              c.Slot(Apply(c, s, a).data, a.block) == c.Slot(s.data, a.block)[a.k := a.value]
              && Holds(Apply(c, s, a), a.thread, a.block)
    ensures a.Give? ==> Holds(Apply(c, s, a), a.to, a.block)
    ensures a.Free? ==> Apply(c, s, a).pool.used == s.pool.used - {a.block} && a.block in s.pool.used
                        && a.block !in Apply(c, s, a).view && a.block !in Apply(c, s, a).owner
  {
    if a.Store? {
      PokeStep(c, s, a.block, a.k, a.value);
    }
  }
}
