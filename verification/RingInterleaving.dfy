/** One writer and one reader on the shared ring, interleaved at every atomic load and
    store of an index and at every single byte of the two copies. */
module RingInterleaving {
  import opened Bits
  import opened Bytes
  import opened SlotLayout

  datatype Result = Success | Full | Empty

  /** Where the writer stands. `head` and `tail` are the values it loaded; `tail` may be
      stale by the time it is used. `heldAtLoad` records how many items the ring held at
      the instant of the last load, and takes no part in any decision. */
  datatype Writer =
    | WIdle
    | WCalled(item: Item)
    | WHeadLoaded(item: Item, head: nat)
    | WCopying(item: Item, head: nat, tail: nat, done: set<nat>)
    | WReturning(result: Result, heldAtLoad: nat)
    | WAsking(head: nat)
    | WAnswered(head: nat, tail: nat, heldAtLoad: nat)

  /** Where the reader stands; `out` is the caller's buffer. */
  datatype Reader =
    | RIdle
    | RCalled(out: Item)
    | RTailLoaded(out: Item, tail: nat)
    | RCopying(out: Item, tail: nat, head: nat, done: set<nat>)
    | RReturning(result: Result, heldAtLoad: nat)
    | RAskingEmpty
    | RAsking(head: nat, heldAtLoad: nat)
    | RAnswered(head: nat, tail: nat, heldAtLoad: nat)

  /** `written` lists the items whose write has published them, `taken` those whose read
      has released them; neither influences a step. */
  datatype State = State(
    head: nat, tail: nat, data: seq<Byte>,
    writer: Writer, reader: Reader,
    written: seq<Item>, taken: seq<Item>)

  /** The atomic steps. Bytes are copied in any order. A query is any of is_full,
      is_empty and count, which load the head first and the tail second. */
  datatype Action =
    | WriteCall(item: Item) | WriteLoadHead | WriteLoadTail | WriteByte(k: nat) | WriteStoreHead | WriteReturn
    | WriterAsk | WriterAskTail | WriterAnswer
    | ReadCall(out: Item) | ReadLoadTail | ReadLoadHead | ReadByte(k: nat) | ReadStoreTail | ReadReturn
    | ReaderAsk | ReaderAskHead | ReaderAskTail | ReaderAnswer

  ghost predicate AllCopied(c: Layout, done: set<nat>) {
    forall k: nat :: k < c.itemSize ==> k in done
  }

  ghost predicate Shaped(c: Layout, s: State) {
    c.Valid() && c.Holds(s.data) && s.head < c.capacity && s.tail < c.capacity
  }

  function Held(c: Layout, s: State): nat
    requires c.Valid() && c.Holds(s.data) && s.head < c.capacity && s.tail < c.capacity
  {
    c.Count(s.head, s.tail)
  }

  ghost predicate Enabled(c: Layout, s: State, a: Action)
    requires Shaped(c, s)
  {
    match a
    case WriteCall(item) => s.writer.WIdle? && |item| == c.itemSize
    case WriteLoadHead => s.writer.WCalled?
    case WriteLoadTail => s.writer.WHeadLoaded?
    case WriteByte(k) =>
      && s.writer.WCopying? && k < c.itemSize && k !in s.writer.done
      && s.writer.head < c.capacity && |s.writer.item| == c.itemSize
    case WriteStoreHead => s.writer.WCopying? && AllCopied(c, s.writer.done)
    case WriteReturn => s.writer.WReturning?
    case WriterAsk => s.writer.WIdle?
    case WriterAskTail => s.writer.WAsking?
    case WriterAnswer => s.writer.WAnswered?
    case ReadCall(out) => s.reader.RIdle? && |out| == c.itemSize
    case ReadLoadTail => s.reader.RCalled?
    case ReadLoadHead => s.reader.RTailLoaded?
    case ReadByte(k) =>
      && s.reader.RCopying? && k < c.itemSize && k !in s.reader.done
      && s.reader.tail < c.capacity && |s.reader.out| == c.itemSize
    case ReadStoreTail => s.reader.RCopying? && AllCopied(c, s.reader.done)
    case ReadReturn => s.reader.RReturning?
    case ReaderAsk => s.reader.RIdle?
    case ReaderAskHead => s.reader.RAskingEmpty?
    case ReaderAskTail => s.reader.RAsking?
    case ReaderAnswer => s.reader.RAnswered?
  }

  ghost function Apply(c: Layout, s: State, a: Action): State
    requires Shaped(c, s) && Enabled(c, s, a)
  {
    var w, r := s.writer, s.reader;
    match a
    case WriteCall(item) => s.(writer := WCalled(item))
    case WriteLoadHead => s.(writer := WHeadLoaded(w.item, s.head))
    case WriteLoadTail =>
      s.(writer := if c.Next(w.head) == s.tail then WReturning(Full, Held(c, s))
                   else WCopying(w.item, w.head, s.tail, {}))
    case WriteByte(k) =>
      s.(data := c.Poke(s.data, w.head, k, w.item[k]), writer := w.(done := w.done + {k}))
    case WriteStoreHead =>
      s.(head := c.Next(w.head), writer := WReturning(Success, Held(c, s)), written := s.written + [w.item])
    case WriteReturn => s.(writer := WIdle)
    case WriterAsk => s.(writer := WAsking(s.head))
    case WriterAskTail => s.(writer := WAnswered(w.head, s.tail, Held(c, s)))
    case WriterAnswer => s.(writer := WIdle)
    case ReadCall(out) => s.(reader := RCalled(out))
    case ReadLoadTail => s.(reader := RTailLoaded(r.out, s.tail))
    case ReadLoadHead =>
      s.(reader := if r.tail == s.head then RReturning(Empty, Held(c, s))
                   else RCopying(r.out, r.tail, s.head, {}))
    case ReadByte(k) =>
      s.(reader := r.(out := r.out[k := c.Slot(s.data, r.tail)[k]], done := r.done + {k}))
    case ReadStoreTail =>
      s.(tail := c.Next(r.tail), reader := RReturning(Success, Held(c, s)), taken := s.taken + [r.out])
    case ReadReturn => s.(reader := RIdle)
    case ReaderAsk => s.(reader := RAskingEmpty)
    case ReaderAskHead => s.(reader := RAsking(s.head, Held(c, s)))
    case ReaderAskTail => s.(reader := RAnswered(r.head, s.tail, r.heldAtLoad))
    case ReaderAnswer => s.(reader := RIdle)
  }

  /** The ring as ring_buffer_create leaves it; the fresh memory holds any bytes. */
  ghost predicate Init(c: Layout, s: State) {
    && Shaped(c, s)
    && s.head == 0 && s.tail == 0 && s.writer == WIdle && s.reader == RIdle
    && s.written == [] && s.taken == []
  }

  /** What shared memory holds, seen as a queue. */
  ghost function Queued(c: Layout, s: State): seq<Item>
    requires Shaped(c, s)
  {
    c.Queue(s.data, s.head, s.tail)
  }

  ghost predicate WriterOk(c: Layout, s: State)
    requires Shaped(c, s)
  {
    match s.writer
    case WIdle => true
    case WCalled(item) => |item| == c.itemSize
    case WHeadLoaded(item, head) => |item| == c.itemSize && head == s.head
    case WCopying(item, head, tail, done) =>
      && |item| == c.itemSize && head == s.head && tail < c.capacity
      && !c.IsFull(s.head, s.tail) && !c.IsFull(head, tail)
      && forall k: nat :: k < c.itemSize && k in done ==> c.Slot(s.data, head)[k] == item[k]
    case WReturning(result, held) =>
      && (result == Full ==> held == c.capacity - 1)
      && (result == Success ==> held < c.capacity - 1)
      && result != Empty
    case WAsking(head) => head == s.head
    case WAnswered(head, tail, held) =>
      head < c.capacity && tail < c.capacity && c.Count(head, tail) == held
  }

  ghost predicate ReaderOk(c: Layout, s: State)
    requires Shaped(c, s)
  {
    match s.reader
    case RIdle => true
    case RCalled(out) => |out| == c.itemSize
    case RTailLoaded(out, tail) => |out| == c.itemSize && tail == s.tail
    case RCopying(out, tail, head, done) =>
      && |out| == c.itemSize && tail == s.tail && head < c.capacity
      && !c.IsEmpty(s.head, s.tail) && !c.IsEmpty(head, tail)
      && forall k: nat :: k < c.itemSize && k in done ==> out[k] == c.Slot(s.data, tail)[k]
    case RReturning(result, held) =>
      && (result == Empty ==> held == 0)
      && (result == Success ==> 0 < held)
      && result != Full
    case RAskingEmpty => true
    case RAsking(head, held) => head < c.capacity && c.Count(head, s.tail) == held
    case RAnswered(head, tail, held) =>
      head < c.capacity && tail < c.capacity && c.Count(head, tail) == held
  }

  ghost predicate Inv(c: Layout, s: State) {
    && Shaped(c, s)
    && WriterOk(c, s)
    && ReaderOk(c, s)
    && s.written == s.taken + Queued(c, s)
  }

  lemma WriteByteStep(c: Layout, s: State, k: nat)
    requires Inv(c, s) && Enabled(c, s, WriteByte(k))
    ensures Inv(c, Apply(c, s, WriteByte(k)))
    ensures Queued(c, Apply(c, s, WriteByte(k))) == Queued(c, s)
  {
    var item := s.writer.item;
    c.PokeKeepsQueue(s.data, s.head, s.tail, k, item[k]);
    c.PokeIsLocal(s.data, s.head, k, item[k], s.head);
    c.PokeIsLocal(s.data, s.head, k, item[k], s.tail);
  }

  lemma WriteStoreStep(c: Layout, s: State)
    requires Inv(c, s) && Enabled(c, s, WriteStoreHead)
    ensures Inv(c, Apply(c, s, WriteStoreHead))
    ensures Held(c, s) < c.capacity - 1
    ensures Queued(c, Apply(c, s, WriteStoreHead)) == Queued(c, s) + [s.writer.item]
  {
    c.AdvanceHead(s.data, s.head, s.tail);
    assert c.Slot(s.data, s.head) == s.writer.item;
  }

  lemma ReadStoreStep(c: Layout, s: State)
    requires Inv(c, s) && Enabled(c, s, ReadStoreTail)
    ensures Inv(c, Apply(c, s, ReadStoreTail))
    ensures Queued(c, s) != [] && s.reader.out == Queued(c, s)[0]
    ensures Queued(c, Apply(c, s, ReadStoreTail)) == Queued(c, s)[1..]
  {
    c.AdvanceTail(s.data, s.head, s.tail);
    WriterSeesTail(c, s, Apply(c, s, ReadStoreTail));
    assert c.Slot(s.data, s.tail) == s.reader.out;
  }

  /** A tail that moves on past an item leaves the writer the room it saw. */
  lemma WriterSeesTail(c: Layout, s: State, u: State)
    requires Inv(c, s) && !c.IsEmpty(s.head, s.tail) && Shaped(c, u)
    requires u.head == s.head && u.tail == c.Next(s.tail) && u.writer == s.writer && u.data == s.data
    ensures WriterOk(c, u)
  {
    c.AdvanceHead(s.data, s.head, s.tail);
    c.AdvanceTail(s.data, s.head, s.tail);
    c.AdvanceHead(s.data, s.head, u.tail);
  }

  /** A step that moves the writer alone. */
  lemma WriterMoves(c: Layout, s: State, w: Writer)
    requires Inv(c, s) && WriterOk(c, s.(writer := w))
    ensures Inv(c, s.(writer := w)) && Queued(c, s.(writer := w)) == Queued(c, s)
  {
  }

  /** A step that moves the reader alone. */
  lemma ReaderMoves(c: Layout, s: State, r: Reader)
    requires Inv(c, s) && ReaderOk(c, s.(reader := r))
    ensures Inv(c, s.(reader := r)) && Queued(c, s.(reader := r)) == Queued(c, s)
  {
  }

  lemma WriterStep(c: Layout, s: State, a: Action)
    requires Inv(c, s) && Enabled(c, s, a)
    requires a.WriteCall? || a == WriteLoadHead || a == WriteLoadTail || a == WriteReturn
             || a == WriterAsk || a == WriterAskTail || a == WriterAnswer
    ensures Inv(c, Apply(c, s, a)) && Queued(c, Apply(c, s, a)) == Queued(c, s)
  {
    c.AdvanceHead(s.data, s.head, s.tail);
    var u := Apply(c, s, a);
    assert u == s.(writer := u.writer);
    WriterMoves(c, s, u.writer);
  }

  lemma ReaderStep(c: Layout, s: State, a: Action)
    requires Inv(c, s) && Enabled(c, s, a)
    requires a.ReadCall? || a == ReadLoadTail || a == ReadLoadHead || a.ReadByte? || a == ReadReturn
             || a == ReaderAsk || a == ReaderAskHead || a == ReaderAskTail || a == ReaderAnswer
    ensures Inv(c, Apply(c, s, a)) && Queued(c, Apply(c, s, a)) == Queued(c, s)
  {
    c.AdvanceTail(s.data, s.head, s.tail);
    var u := Apply(c, s, a);
    assert u == s.(reader := u.reader);
    ReaderMoves(c, s, u.reader);
  }

  lemma LocalStep(c: Layout, s: State, a: Action)
    requires Inv(c, s) && Enabled(c, s, a)
    requires !a.WriteByte? && a != WriteStoreHead && a != ReadStoreTail
    ensures Inv(c, Apply(c, s, a)) && Queued(c, Apply(c, s, a)) == Queued(c, s)
  {
    if a.WriteCall? || a == WriteLoadHead || a == WriteLoadTail || a == WriteReturn
       || a == WriterAsk || a == WriterAskTail || a == WriterAnswer {
      WriterStep(c, s, a);
    } else {
      ReaderStep(c, s, a);
    }
  }

  /** One atomic step of either thread, seen on the shared memory alone, is an enqueue, a
      dequeue or nothing at all; and it keeps the invariant. */
  lemma StepRefinesQueue(c: Layout, s: State, a: Action)
    requires Inv(c, s) && Enabled(c, s, a)
    ensures Inv(c, Apply(c, s, a))
    ensures a == WriteStoreHead ==>
              && |Queued(c, s)| < c.capacity - 1
              && Queued(c, Apply(c, s, a)) == Queued(c, s) + [s.writer.item]
    ensures a == ReadStoreTail ==>
              && Queued(c, s) != []
              && s.reader.out == Queued(c, s)[0]
              && Queued(c, Apply(c, s, a)) == Queued(c, s)[1..]
    ensures a != WriteStoreHead && a != ReadStoreTail ==> Queued(c, Apply(c, s, a)) == Queued(c, s)
  {
    if a.WriteByte? {
      WriteByteStep(c, s, a.k);
    } else if a == WriteStoreHead {
      WriteStoreStep(c, s);
    } else if a == ReadStoreTail {
      ReadStoreStep(c, s);
    } else {
      LocalStep(c, s, a);
    }
  }

  /** `acts` is an interleaving that takes the ring from s to t. */
  ghost predicate Run(c: Layout, s: State, acts: seq<Action>, t: State)
    decreases |acts|
  {
    if acts == [] then s == t
    else Shaped(c, s) && Enabled(c, s, acts[0]) && Run(c, Apply(c, s, acts[0]), acts[1..], t)
  }

  /** The items of the write calls that went on to publish, read off the interleaving;
      `pending` is the item of the call in progress at its start. */
  ghost function Published(acts: seq<Action>, pending: Item): seq<Item>
    decreases |acts|
  {
    if acts == [] then []
    else match acts[0]
      case WriteCall(item) => Published(acts[1..], item)
      case WriteStoreHead => [pending] + Published(acts[1..], pending)
      case _ => Published(acts[1..], pending)
  }

  ghost predicate Pending(w: Writer, item: Item) {
    match w
    case WCalled(i) => i == item
    case WHeadLoaded(i, _) => i == item
    case WCopying(i, _, _, _) => i == item
    case _ => true
  }

  lemma {:induction false} RunKeepsInv(c: Layout, s: State, acts: seq<Action>, t: State, pending: Item)
    requires Inv(c, s) && Run(c, s, acts, t) && Pending(s.writer, pending)
    ensures Inv(c, t)
    ensures t.written == s.written + Published(acts, pending)
    decreases |acts|
  {
    if acts != [] {
      var a := acts[0];
      StepRefinesQueue(c, s, a);
      var next := if a.WriteCall? then a.item else pending;
      RunKeepsInv(c, Apply(c, s, a), acts[1..], t, next);
    }
  }

  /** Every interleaving of one writer and one reader on a new ring: the items taken are a
      prefix of the items the publishing calls were given, fewer than `capacity` of them
      are in flight, and the two copies never touch the same slot. */
  lemma RunsDeliverInOrder(c: Layout, s: State, acts: seq<Action>, t: State)
    requires Init(c, s) && Run(c, s, acts, t)
    ensures t.written == Published(acts, [])
    ensures Shaped(c, t) && t.taken <= t.written
    ensures |t.written| == |t.taken| + Held(c, t) && Held(c, t) <= c.capacity - 1
    ensures t.writer.WCopying? && t.reader.RCopying? ==> t.writer.head != t.reader.tail
    ensures Inv(c, t)
  {
    RunKeepsInv(c, s, acts, t, []);
    c.AdvanceTail(t.data, t.head, t.tail);
  }

  /** A write gives up exactly when capacity - 1 items are held as it loads the tail, and
      a read exactly when none is held as it loads the head. A call that publishes or releases
      an item answers success. */
  lemma RefusalIsExact(c: Layout, s: State, a: Action)
    requires Inv(c, s) && Enabled(c, s, a)
    ensures a == WriteLoadTail ==>
              (Apply(c, s, a).writer == WReturning(Full, Held(c, s)) <==> Held(c, s) == c.capacity - 1)
    ensures a == ReadLoadHead ==>
              (Apply(c, s, a).reader == RReturning(Empty, Held(c, s)) <==> Held(c, s) == 0)
    ensures a == WriteStoreHead ==> Apply(c, s, a).writer == WReturning(Success, Held(c, s))
    ensures a == ReadStoreTail ==> Apply(c, s, a).reader == RReturning(Success, Held(c, s))
  {
    c.AdvanceHead(s.data, s.head, s.tail);
    c.AdvanceTail(s.data, s.head, s.tail);
  }

  /** What is_full, is_empty and count answer to the writer or the reader is true of the
      ring at one instant within the call. */
  lemma AnswersAreTrue(c: Layout, s: State)
    requires Inv(c, s)
    ensures s.writer.WAnswered? ==>
              var w := s.writer;
              && w.head < c.capacity && w.tail < c.capacity
              && c.Count(w.head, w.tail) == w.heldAtLoad
              && (c.IsFull(w.head, w.tail) <==> w.heldAtLoad == c.capacity - 1)
              && (c.IsEmpty(w.head, w.tail) <==> w.heldAtLoad == 0)
    ensures s.reader.RAnswered? ==>
              var r := s.reader;
              && r.head < c.capacity && r.tail < c.capacity
              && c.Count(r.head, r.tail) == r.heldAtLoad
              && (c.IsFull(r.head, r.tail) <==> r.heldAtLoad == c.capacity - 1)
              && (c.IsEmpty(r.head, r.tail) <==> r.heldAtLoad == 0)
  {
    if s.writer.WAnswered? {
      c.AdvanceHead(s.data, s.writer.head, s.writer.tail);
      c.AdvanceTail(s.data, s.writer.head, s.writer.tail);
    }
    if s.reader.RAnswered? {
      c.AdvanceHead(s.data, s.reader.head, s.reader.tail);
      c.AdvanceTail(s.data, s.reader.head, s.reader.tail);
    }
  }

  ghost predicate AtMostHeld(c: Layout, s: State, acts: seq<Action>, bound: nat)
    decreases |acts|
  {
    && Shaped(c, s) && Held(c, s) <= bound
    && (acts != [] ==> Enabled(c, s, acts[0]) && AtMostHeld(c, Apply(c, s, acts[0]), acts[1..], bound))
  }

  /** Count is not safe for a third party: between its load of the head and its load of
      the tail one item can pass through, and it then answers capacity - 1 although the
      ring never held more than one. */
  lemma OutsideObserverMiscounts(c: Layout, s: State, item: Item) returns (acts: seq<Action>, t: State)
    requires Shaped(c, s) && s.head == s.tail && s.writer.WIdle? && s.reader.RIdle?
    requires |item| == c.itemSize && c.capacity >= 3
    ensures Run(c, s, acts, t) && AtMostHeld(c, s, acts, 1)
    ensures t.tail < c.capacity && c.Count(s.head, t.tail) == c.capacity - 1
  {
    var write, mid := WriteOne(c, s, item);
    var read, last := ReadOne(c, mid, item);
    acts, t := write + read, last;
    Append(c, s, write, mid, read, t, 1);
    c.NextWraps(s.head);
  }

  /** Exactly when a third party that loads the head in s and the tail in t counts what the
      ring holds in t, or what it held in s: when the items published in between, or those
      taken, are a multiple of the capacity, above all when there are none. */
  lemma OutsideObserverIsRightIff(c: Layout, s: State, acts: seq<Action>, t: State)
    requires Inv(c, s) && Run(c, s, acts, t)
    ensures Inv(c, t) && |s.written| <= |t.written| && |s.taken| <= |t.taken|
    ensures c.Count(s.head, t.tail) == Held(c, t) <==> (|t.written| - |s.written|) % c.capacity == 0
    ensures c.Count(s.head, t.tail) == Held(c, s) <==> (|t.taken| - |s.taken|) % c.capacity == 0
  {
    HeadFollows(c, s, acts, t);
    SameAfterAddingIff(s.head, |t.written| - |s.written|, c.capacity);
    TailFollows(c, s, acts, t);
    SameAfterAddingIff(s.tail, |t.taken| - |s.taken|, c.capacity);
  }

  /** One step publishes nothing and leaves the head, or publishes one item and moves it on. */
  lemma StepMovesHead(c: Layout, s: State, a: Action) returns (u: State)
    requires Inv(c, s) && Enabled(c, s, a)
    ensures u == Apply(c, s, a) && Inv(c, u)
    ensures || (u.head == s.head && |u.written| == |s.written|)
            || (u.head == (s.head + 1) % c.capacity && |u.written| == |s.written| + 1)
  {
    StepRefinesQueue(c, s, a);
    u := Apply(c, s, a);
  }

  /** The head goes round with the items published. */
  lemma {:induction false} HeadFollows(c: Layout, s: State, acts: seq<Action>, t: State)
    requires Inv(c, s) && Run(c, s, acts, t)
    ensures Inv(c, t) && |s.written| <= |t.written|
    ensures t.head == (s.head + (|t.written| - |s.written|)) % c.capacity
    decreases |acts|
  {
    if acts == [] {
      ModUnique(s.head, c.capacity, 0, s.head);
    } else {
      var u := StepMovesHead(c, s, acts[0]);
      HeadFollows(c, u, acts[1..], t);
      OneFurther(s.head, u.head, |t.written| - |u.written|, c.capacity, t.head);
    }
  }

  lemma StepMovesTail(c: Layout, s: State, a: Action) returns (u: State)
    requires Inv(c, s) && Enabled(c, s, a)
    ensures u == Apply(c, s, a) && Inv(c, u)
    ensures || (u.tail == s.tail && |u.taken| == |s.taken|)
            || (u.tail == (s.tail + 1) % c.capacity && |u.taken| == |s.taken| + 1)
  {
    StepRefinesQueue(c, s, a);
    u := Apply(c, s, a);
  }

  /** And the tail with the items taken. */
  lemma {:induction false} TailFollows(c: Layout, s: State, acts: seq<Action>, t: State)
    requires Inv(c, s) && Run(c, s, acts, t)
    ensures Inv(c, t) && |s.taken| <= |t.taken|
    ensures t.tail == (s.tail + (|t.taken| - |s.taken|)) % c.capacity
    decreases |acts|
  {
    if acts == [] {
      ModUnique(s.tail, c.capacity, 0, s.tail);
    } else {
      var u := StepMovesTail(c, s, acts[0]);
      TailFollows(c, u, acts[1..], t);
      OneFurther(s.tail, u.tail, |t.taken| - |u.taken|, c.capacity, t.tail);
    }
  }

  lemma OneFurther(h: nat, next: nat, d: nat, n: nat, end: nat)
    requires n > 0 && end == (next + d) % n
    ensures next == (h + 1) % n ==> end == (h + (d + 1)) % n
  {
    AddAfterMod(h + 1, d, n);
  }

  function Below(n: nat): (ks: set<nat>)
    ensures forall k: nat :: k in ks <==> k < n
  {
    if n == 0 then {} else Below(n - 1) + {n - 1}
  }

  /** Copies the bytes from number n on into the head's slot. */
  lemma {:induction false} CopyIn(c: Layout, s: State, n: nat) returns (acts: seq<Action>, t: State)
    requires Shaped(c, s) && Held(c, s) <= 1 && n <= c.itemSize
    requires s.writer.WCopying? && s.writer.head < c.capacity
    requires |s.writer.item| == c.itemSize && s.writer.done == Below(n)
    ensures Run(c, s, acts, t) && AtMostHeld(c, s, acts, 1)
    ensures Shaped(c, t) && t.head == s.head && t.tail == s.tail && t.reader == s.reader
    ensures t.writer == s.writer.(done := Below(c.itemSize))
    decreases c.itemSize - n
  {
    acts, t := [], s;
    if n < c.itemSize {
      var u := Apply(c, s, WriteByte(n));
      acts, t := CopyIn(c, u, n + 1);
      Cons(c, s, WriteByte(n), acts, t, 1);
      acts := [WriteByte(n)] + acts;
    }
  }

  /** Copies the bytes from number n on out of the tail's slot. */
  lemma {:induction false} CopyOut(c: Layout, s: State, n: nat) returns (acts: seq<Action>, t: State)
    requires Shaped(c, s) && Held(c, s) <= 1 && n <= c.itemSize
    requires s.reader.RCopying? && s.reader.tail < c.capacity
    requires |s.reader.out| == c.itemSize && s.reader.done == Below(n)
    ensures Run(c, s, acts, t) && AtMostHeld(c, s, acts, 1)
    ensures Shaped(c, t) && t.head == s.head && t.tail == s.tail
    ensures t.reader.RCopying? && t.reader.tail == s.reader.tail && t.reader.done == Below(c.itemSize)
    decreases c.itemSize - n
  {
    acts, t := [], s;
    if n < c.itemSize {
      var u := Apply(c, s, ReadByte(n));
      acts, t := CopyOut(c, u, n + 1);
      Cons(c, s, ReadByte(n), acts, t, 1);
      acts := [ReadByte(n)] + acts;
    }
  }

  lemma WriteOne(c: Layout, s: State, item: Item) returns (acts: seq<Action>, t: State)
    requires Shaped(c, s) && |item| == c.itemSize && c.capacity >= 3
    requires s.head == s.tail && s.writer.WIdle?
    ensures Run(c, s, acts, t) && AtMostHeld(c, s, acts, 1)
    ensures Shaped(c, t) && t.head == c.Next(s.head) && t.tail == s.tail && t.reader == s.reader
  {
    c.NextWraps(s.head);
    var s1 := Apply(c, s, WriteCall(item));
    var s2 := Apply(c, s1, WriteLoadHead);
    var s3 := Apply(c, s2, WriteLoadTail);
    assert Below(0) == {};
    var copy, s4 := CopyIn(c, s3, 0);
    t := Apply(c, s4, WriteStoreHead);
    Cons(c, s4, WriteStoreHead, [], t, 1);
    Append(c, s3, copy, s4, [WriteStoreHead] + [], t, 1);
    acts := copy + ([WriteStoreHead] + []);
    Cons(c, s2, WriteLoadTail, acts, t, 1);
    acts := [WriteLoadTail] + acts;
    Cons(c, s1, WriteLoadHead, acts, t, 1);
    acts := [WriteLoadHead] + acts;
    Cons(c, s, WriteCall(item), acts, t, 1);
    acts := [WriteCall(item)] + acts;
  }

  lemma ReadOne(c: Layout, s: State, out: Item) returns (acts: seq<Action>, t: State)
    requires Shaped(c, s) && |out| == c.itemSize && c.capacity >= 3
    requires s.head == c.Next(s.tail) && s.reader.RIdle?
    ensures Run(c, s, acts, t) && AtMostHeld(c, s, acts, 1)
    ensures t.tail == s.head
  {
    c.NextWraps(s.tail);
    var s1 := Apply(c, s, ReadCall(out));
    var s2 := Apply(c, s1, ReadLoadTail);
    var s3 := Apply(c, s2, ReadLoadHead);
    assert Below(0) == {};
    var copy, s4 := CopyOut(c, s3, 0);
    t := Apply(c, s4, ReadStoreTail);
    Cons(c, s4, ReadStoreTail, [], t, 1);
    Append(c, s3, copy, s4, [ReadStoreTail] + [], t, 1);
    acts := copy + ([ReadStoreTail] + []);
    Cons(c, s2, ReadLoadHead, acts, t, 1);
    acts := [ReadLoadHead] + acts;
    Cons(c, s1, ReadLoadTail, acts, t, 1);
    acts := [ReadLoadTail] + acts;
    Cons(c, s, ReadCall(out), acts, t, 1);
    acts := [ReadCall(out)] + acts;
  }

  lemma {:induction false} Append(c: Layout, s: State, xs: seq<Action>, m: State, ys: seq<Action>, t: State, bound: nat)
    requires Run(c, s, xs, m) && AtMostHeld(c, s, xs, bound)
    requires Run(c, m, ys, t) && AtMostHeld(c, m, ys, bound)
    ensures Run(c, s, xs + ys, t) && AtMostHeld(c, s, xs + ys, bound)
    decreases |xs|
  {
    if xs == [] {
      assert xs + ys == ys;
    } else {
      Append(c, Apply(c, s, xs[0]), xs[1..], m, ys, t, bound);
      Cons(c, s, xs[0], xs[1..] + ys, t, bound);
      assert xs + ys == [xs[0]] + (xs[1..] + ys);
    }
  }

  lemma Cons(c: Layout, s: State, a: Action, rest: seq<Action>, t: State, bound: nat)
    requires Shaped(c, s) && Enabled(c, s, a) && Held(c, s) <= bound
    requires Run(c, Apply(c, s, a), rest, t) && AtMostHeld(c, Apply(c, s, a), rest, bound)
    ensures Run(c, s, [a] + rest, t) && AtMostHeld(c, s, [a] + rest, bound)
  {
    assert ([a] + rest)[1..] == rest;
  }
}
