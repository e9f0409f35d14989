/** What the wire functions promise together: bytes accounted for on every path, and messages
    delivered unchanged and in order under every fragmentation. */
module WireDelivery {
  import opened Bytes
  import opened WireFormat
  import opened Words

  // ---------------------------------------------------------------- byte accounting

  /** The bytes a call took off the stream. */
  function Consumed(s: Source, t: Source): int {
    |s.pending| - |t.pending|
  }

  /** A read takes a prefix off the stream and hands over exactly that prefix. */
  lemma ReadTakesPrefix(s: Source, n: nat)
    ensures var d := ReadAll(s, n);
            && |d.data| <= |s.pending| && Consumed(s, d.rest) == |d.data|
            && d.data == s.pending[..|d.data|] && d.rest.pending == s.pending[|d.data|..]
  {
    var d := ReadAll(s, n);
    assert s.pending == d.data + d.rest.pending;
  }

  /** A header is reported only after exactly 16 bytes, and AGAIN only after none. */
  lemma HeaderAccounting(s: Source)
    ensures var r := RecvHeader(s);
            && (r.header.Some? <==> Consumed(s, r.rest) == HEADER_SIZE)
            && (r.code in {OK, FRAME, SIZE} <==> r.header.Some?)
            && (r.code == AGAIN ==> Consumed(s, r.rest) == 0)
            && 0 <= Consumed(s, r.rest) <= HEADER_SIZE
            && r.rest.pending == s.pending[Consumed(s, r.rest)..]
  {
    var d := ReadAll(s, HEADER_SIZE);
    assert s.pending == d.data + d.rest.pending;
  }

  /** A message call says OK only after a whole frame, AGAIN only after nothing or exactly a
      header, and SIZE only after exactly a header. */
  lemma MessageAccounting(s: Source, bufSize: nat)
    ensures var r := RecvMsg(s, bufSize);
            && (r.code == OK ==> r.header.Some? && Consumed(s, r.rest) == HEADER_SIZE + r.header.value.length)
            && |r.payload| == (if r.code == OK then r.header.value.length else 0)
            && (r.code == AGAIN ==> Consumed(s, r.rest) == if r.header.Some? then HEADER_SIZE else 0)
            && (r.code == SIZE ==> r.header.Some? && Consumed(s, r.rest) == HEADER_SIZE)
            && 0 <= Consumed(s, r.rest) && r.rest.pending == s.pending[Consumed(s, r.rest)..]
  {
    HeaderAccounting(s);
    var h := RecvHeader(s);
    if h.code == OK {
      var d := ReadAll(h.rest, h.header.value.length);
      ReadTakesPrefix(h.rest, h.header.value.length);
      if h.header.value.length > 0 && h.header.value.length <= bufSize {
        DropDrop(s.pending, h.rest.pending, d.rest.pending, HEADER_SIZE, |d.data|);
      }
    }
  }

  lemma DropDrop<T>(s: seq<T>, t: seq<T>, u: seq<T>, i: nat, j: nat)
    requires i <= |s| && t == s[i..]
    requires j <= |t| && u == t[j..]
    ensures u == s[i + j..]
  {
  }

  // ---------------------------------------------------------------- one message

  lemma FrameSplits(m: Message, rest: seq<Byte>)
    ensures var bs := Frame(m) + rest;
            && bs[..HEADER_SIZE] == EncodeHeader(HeaderOf(m.kind, m.seqNo, |m.payload|))
            && bs[HEADER_SIZE..] == m.payload + rest
  {
  }

  lemma HeaderValid(m: Message)
    requires m.Valid()
    ensures HeaderOf(m.kind, m.seqNo, |m.payload|).Valid()
  {
    assert Pow256(4) == 256 * Pow256(3) && Pow256(3) == 256 * Pow256(2) && Pow256(2) == 256 * Pow256(1);
  }

  lemma HeaderBytesArrive(s: Source, m: Message, rest: seq<Byte>)
    requires s.pending == Frame(m) + rest && ReadAll(s, HEADER_SIZE).code == OK
    ensures ReadAll(s, HEADER_SIZE).data == EncodeHeader(HeaderOf(m.kind, m.seqNo, |m.payload|))
    ensures ReadAll(s, HEADER_SIZE).rest.pending == m.payload + rest
  {
    FrameSplits(m, rest);
    ReadTakesPrefix(s, HEADER_SIZE);
  }

  lemma HeaderDecodes(s: Source, h: Header)
    requires var d := ReadAll(s, HEADER_SIZE); d.code == OK && DecodeHeader(d.data) == h
    ensures var r := RecvHeader(s);
            && r.header == Some(h) && r.rest == ReadAll(s, HEADER_SIZE).rest
            && (h.magic == MON_MSG_MAGIC && h.version == MON_PROTOCOL_VERSION ==>
                  r.code == if h.length > MON_MAX_PAYLOAD_BYTES then SIZE else OK)
  {
  }

  /** At a frame boundary the header that arrives is the frame's own. */
  lemma HeaderArrives(s: Source, m: Message, rest: seq<Byte>)
    requires m.Valid() && s.pending == Frame(m) + rest
    ensures var r := RecvHeader(s);
            && r.code != FRAME
            && (r.code == SIZE ==> |m.payload| > MON_MAX_PAYLOAD_BYTES)
            && (r.code == OK ==> |m.payload| <= MON_MAX_PAYLOAD_BYTES)
            && (r.header.Some? ==> r.header.value == HeaderOf(m.kind, m.seqNo, |m.payload|)
                                   && r.rest.pending == m.payload + rest)
  {
    var h := HeaderOf(m.kind, m.seqNo, |m.payload|);
    if ReadAll(s, HEADER_SIZE).code == OK {
      HeaderBytesArrive(s, m, rest);
      HeaderValid(m);
      HeaderRoundTrip(h);
      HeaderDecodes(s, h);
    }
  }

  predicate Fits(m: Message, bufSize: nat) {
    |m.payload| <= MON_MAX_PAYLOAD_BYTES && |m.payload| <= bufSize
  }

  /** At the boundary of a frame that fits, a message call either delivers that message and
      moves to the next boundary, or reports AGAIN, or fails because of the connection. Its
      AGAIN leaves the stream at the boundary, except when the stall came at the payload's
      first byte. */
  lemma MessageArrives(s: Source, m: Message, rest: seq<Byte>, bufSize: nat)
    requires m.Valid() && Fits(m, bufSize) && s.pending == Frame(m) + rest
    ensures var r := RecvMsg(s, bufSize);
            && r.code in {OK, AGAIN, IO, EOF, WAITING}
            && (r.code == OK ==> r.payload == m.payload && r.rest.pending == rest
                                 && r.header == Some(HeaderOf(m.kind, m.seqNo, |m.payload|)))
            && (r.code == AGAIN ==> r.rest.pending == if r.header.None? then s.pending else m.payload + rest)
            && (r.code == AGAIN && r.header.Some? ==> m.payload != [])
  {
    HeaderArrives(s, m, rest);
    HeaderAccounting(s);
    var h := RecvHeader(s);
    if h.code == OK && |m.payload| > 0 {
      var d := ReadAll(h.rest, |m.payload|);
      assert h.rest.pending == d.data + d.rest.pending;
      if d.code == OK {
        assert d.data == (m.payload + rest)[..|m.payload|];
        assert d.rest.pending == (m.payload + rest)[|m.payload|..];
      }
    }
  }

  // ---------------------------------------------------------------- stalls, told from the script

  /** The first thing the script does, interrupts aside, is to block. */
  predicate BlocksFirst(script: seq<ReadEvent>)
    decreases |script|
  {
    script != [] &&
    match script[0]
    case WouldBlock => true
    case Interrupted => BlocksFirst(script[1..])
    case _ => false
  }

  /** The script left once n bytes have come, in as many tries as that takes. */
  function After(script: seq<ReadEvent>, n: nat): (left: seq<ReadEvent>)
    ensures |left| <= |script|
    decreases |script|
  {
    if n == 0 then script
    else if script == [] then []
    else
      match script[0]
      case Chunk(k) => After(script[1..], n - Min(k, n))
      case Interrupted => After(script[1..], n)
      case WouldBlock => After(script[1..], n)
      case Fault => []
      case Closed => []
  }

  /** A read of bytes that are all there follows the script: it ends where the script says,
      and reports AGAIN exactly when the script blocks before its first byte. */
  lemma {:induction false} ReadFollows(s: Source, n: nat, done: seq<Byte>)
    requires |done| <= n <= |done| + |s.pending|
    ensures var r := ReadFrom(s, n, done);
            && (r.code == OK ==> r.rest.script == After(s.script, n - |done|))
            && (r.code == AGAIN <==> done == [] && n > 0 && BlocksFirst(s.script))
            && (r.code == AGAIN ==> After(r.rest.script, n) == After(s.script, n))
            && (r.code != OK && r.code != AGAIN ==> After(s.script, n - |done|) == [])
    decreases |s.script|
  {
    if |done| < n && s.script != [] {
      var tail := s.(script := s.script[1..]);
      match s.script[0]
      case Chunk(k) =>
        var r := Min(k, Min(n - |done|, |s.pending|));
        ReadFollows(Source(s.pending[r..], s.script[1..]), n, done + s.pending[..r]);
      case Interrupted => ReadFollows(tail, n, done);
      case WouldBlock =>
        if done != [] {
          ReadFollows(tail, n, done);
        }
      case _ =>
    }
  }

  /** At a frame's boundary a call reports AGAIN past the header exactly when there is a
      payload, and the script does not block before the header's first byte but does block
      right behind its last. */
  lemma StallsAtPayloadIff(s: Source, m: Message, rest: seq<Byte>, bufSize: nat)
    requires m.Valid() && Fits(m, bufSize) && s.pending == Frame(m) + rest
    ensures var r := RecvMsg(s, bufSize);
            r.code == AGAIN && r.header.Some?
            <==> m.payload != [] && !BlocksFirst(s.script) && BlocksFirst(After(s.script, HEADER_SIZE))
  {
    HeaderArrives(s, m, rest);
    HeaderAccounting(s);
    ReadFollows(s, HEADER_SIZE, []);
    var h := RecvHeader(s);
    if h.code == OK {
      ReadFollows(h.rest, |m.payload|, []);
    }
  }

  /** A call at a boundary leaves the stream off every boundary, although it says that the
      caller should try again, exactly under that condition on the script. */
  lemma RetryIsUnsafeIff(s: Source, m: Message, rest: seq<Byte>, bufSize: nat)
    requires m.Valid() && Fits(m, bufSize) && s.pending == Frame(m) + rest
    ensures var r := RecvMsg(s, bufSize);
            r.code == AGAIN && r.rest.pending != Frame(m) + rest
            <==> m.payload != [] && !BlocksFirst(s.script) && BlocksFirst(After(s.script, HEADER_SIZE))
  {
    StallsAtPayloadIff(s, m, rest, bufSize);
    MessageArrives(s, m, rest, bufSize);
  }

  ghost predicate SafeToRetry(m: Message, rest: seq<Byte>, bufSize: nat, script: seq<ReadEvent>) {
    var r := RecvMsg(Source(Frame(m) + rest, script), bufSize);
    r.code == AGAIN ==> r.rest.pending == Frame(m) + rest
  }

  /** Whatever the connection does, retrying after AGAIN is safe if and only if the message
      has no payload. */
  lemma RetryIsSafeIff(m: Message, rest: seq<Byte>, bufSize: nat)
    requires m.Valid() && Fits(m, bufSize)
    ensures (forall script :: SafeToRetry(m, rest, bufSize, script)) <==> m.payload == []
  {
    if m.payload == [] {
      forall script ensures SafeToRetry(m, rest, bufSize, script) {
        RetryIsUnsafeIff(Source(Frame(m) + rest, script), m, rest, bufSize);
      }
    } else {
      var script := [Chunk(HEADER_SIZE), WouldBlock];
      assert script[1..] == [WouldBlock];
      assert After(script, HEADER_SIZE) == After([WouldBlock], 0) == [WouldBlock];
      RetryIsUnsafeIff(Source(Frame(m) + rest, script), m, rest, bufSize);
      assert !SafeToRetry(m, rest, bufSize, script);
    }
  }

  /** The stall that must not happen: when the first read of a payload would block, the
      retry takes payload bytes for a header. */
  lemma PayloadStallDerails(payload: seq<Byte>)
    requires |payload| == HEADER_SIZE && forall i :: 0 <= i < HEADER_SIZE ==> payload[i] == 0
    ensures var s := Source(Frame(Message(1, 0, payload)), [Chunk(HEADER_SIZE), WouldBlock, Chunk(HEADER_SIZE)]);
            && RecvMsg(s, HEADER_SIZE).code == AGAIN
            && RecvMsg(RecvMsg(s, HEADER_SIZE).rest, HEADER_SIZE).code == FRAME
  {
    var m := Message(1, 0, payload);
    var s := Source(Frame(m), [Chunk(HEADER_SIZE), WouldBlock, Chunk(HEADER_SIZE)]);
    HeaderValid(m);
    assert Frame(m) + [] == Frame(m);
    ReadInOneChunk(s, HEADER_SIZE);
    HeaderArrives(s, m, []);
    var r := RecvMsg(s, HEADER_SIZE);
    assert r.code == AGAIN && r.rest.script == [Chunk(HEADER_SIZE)];
    assert r.rest.pending == payload;
    ReadInOneChunk(r.rest, HEADER_SIZE);
    ZerosAreZero(payload[0..4]);
  }

  lemma ReadInOneChunk(s: Source, n: Positive)
    requires |s.pending| >= n && s.script != [] && s.script[0] == Chunk(n)
    ensures ReadAll(s, n) == Received(OK, s.pending[..n], Source(s.pending[n..], s.script[1..]))
  {
    var bs := s.pending[..n];
    var t := Source(s.pending[n..], s.script[1..]);
    assert [] + bs == bs;
    assert ReadFrom(t, n, bs) == Received(OK, bs, t);
  }

  lemma {:induction false} ZerosAreZero(bs: seq<Byte>)
    requires forall i :: 0 <= i < |bs| ==> bs[i] == 0
    ensures FromBytes(bs) == 0
    decreases |bs|
  {
    if bs != [] {
      ZerosAreZero(bs[1..]);
    }
  }

  // ---------------------------------------------------------------- many messages

  datatype Session = Session(messages: seq<Message>, code: Code, rest: Source)

  /** A receiver that wants `count` messages and calls again whenever it is told AGAIN. */
  function RecvMany(s: Source, count: nat, bufSize: nat): (r: Session)
    decreases |s.script|, count
  {
    if count == 0 then Session([], OK, s)
    else
      var r := RecvMsg(s, bufSize);
      if r.code == AGAIN && |r.rest.script| < |s.script| then RecvMany(r.rest, count, bufSize)
      else if r.code == OK && r.header.Some? && |r.rest.script| < |s.script| then
        var more := RecvMany(r.rest, count - 1, bufSize);
        Session([Message(r.header.value.kind, r.header.value.seqNo, r.payload)] + more.messages, more.code, more.rest)
      else Session([], r.code, r.rest)
  }

  /** The script never blocks right before a payload's first byte, when it brings the frames
      of these messages one after another. */
  predicate Unstalled(script: seq<ReadEvent>, ms: seq<Message>)
    decreases |ms|
  {
    ms == [] ||
    var behind := After(script, HEADER_SIZE);
    (ms[0].payload != [] ==> !BlocksFirst(behind)) && Unstalled(After(behind, |ms[0].payload|), ms[1..])
  }

  /** What a call at a boundary makes of the script. */
  lemma MessageFollows(s: Source, m: Message, rest: seq<Byte>, bufSize: nat)
    requires m.Valid() && Fits(m, bufSize) && s.pending == Frame(m) + rest
    ensures var r := RecvMsg(s, bufSize);
            var behind := After(s.script, HEADER_SIZE);
            && (r.code == AGAIN && r.header.None? ==> After(r.rest.script, HEADER_SIZE) == behind)
            && (r.code == AGAIN && r.header.Some? ==> m.payload != [] && BlocksFirst(behind))
            && (r.code == OK ==>
                  r.rest.script == After(behind, |m.payload|) && (m.payload != [] ==> !BlocksFirst(behind)))
  {
    HeaderArrives(s, m, rest);
    HeaderAccounting(s);
    ReadFollows(s, HEADER_SIZE, []);
    var h := RecvHeader(s);
    if h.code == OK {
      ReadFollows(h.rest, |m.payload|, []);
    }
  }

  lemma ProgressOfMsg(s: Source, bufSize: nat)
    ensures RecvMsg(s, bufSize).code in {OK, AGAIN} ==> |RecvMsg(s, bufSize).rest.script| < |s.script|
  {
    var d := ReadAll(s, HEADER_SIZE);
    var h := RecvHeader(s);
    if h.code == OK {
      var e := ReadAll(h.rest, h.header.value.length);
    }
  }

  lemma SessionRetries(s: Source, count: nat, bufSize: nat)
    requires count > 0 && RecvMsg(s, bufSize).code == AGAIN
    ensures RecvMany(s, count, bufSize) == RecvMany(RecvMsg(s, bufSize).rest, count, bufSize)
  {
    ProgressOfMsg(s, bufSize);
  }

  lemma SessionDelivers(s: Source, m: Message, count: nat, bufSize: nat)
    requires count > 0
    requires var r := RecvMsg(s, bufSize);
             && r.code == OK && r.payload == m.payload
             && r.header == Some(HeaderOf(m.kind, m.seqNo, |m.payload|))
    ensures var more := RecvMany(RecvMsg(s, bufSize).rest, count - 1, bufSize);
            RecvMany(s, count, bufSize) == Session([m] + more.messages, more.code, more.rest)
  {
    ProgressOfMsg(s, bufSize);
  }

  lemma FramesSplit(ms: seq<Message>, tail: seq<Byte>)
    requires ms != []
    ensures Frames(ms) + tail == Frame(ms[0]) + (Frames(ms[1..]) + tail)
  {
  }

  predicate AllFit(ms: seq<Message>, bufSize: nat) {
    forall i :: 0 <= i < |ms| ==> Fits(ms[i], bufSize)
  }

  ghost predicate AllValid(ms: seq<Message>) {
    forall i :: 0 <= i < |ms| ==> ms[i].Valid()
  }

  /** One call of a session that stands at the first frame: how the session goes on from
      `rest`, and what becomes of the script's promise. */
  lemma CallAtBoundary(s: Source, ms: seq<Message>, tail: seq<Byte>, bufSize: nat)
    returns (code: Code, stalled: bool, rest: Source)
    requires ms != [] && s.pending == Frames(ms) + tail && ms[0].Valid() && Fits(ms[0], bufSize)
    ensures code == OK || code == AGAIN || code == IO || code == EOF || code == WAITING
    ensures code == OK || code == AGAIN ==> |rest.script| < |s.script|
    ensures code == AGAIN ==> RecvMany(s, |ms|, bufSize) == RecvMany(rest, |ms|, bufSize)
    ensures code == AGAIN && !stalled ==>
              rest.pending == s.pending && (Unstalled(rest.script, ms) <==> Unstalled(s.script, ms))
    ensures code == AGAIN && stalled ==>
              !Unstalled(s.script, ms) && |rest.pending| == |s.pending| - HEADER_SIZE
    ensures code == OK ==>
              && RecvMany(s, |ms|, bufSize) == Delivering(ms[0], RecvMany(rest, |ms| - 1, bufSize))
              && rest.pending == Frames(ms[1..]) + tail
              && (Unstalled(s.script, ms) <==> Unstalled(rest.script, ms[1..]))
    ensures code != OK && code != AGAIN ==> RecvMany(s, |ms|, bufSize) == Session([], code, rest)
    ensures rest == RecvMsg(s, bufSize).rest && code == RecvMsg(s, bufSize).code
  {
    var r := RecvMsg(s, bufSize);
    code, stalled, rest := r.code, r.header.Some?, r.rest;
    var behind := Frames(ms[1..]) + tail;
    FramesSplit(ms, tail);
    ProgressOfMsg(s, bufSize);
    MessageArrives(s, ms[0], behind, bufSize);
    MessageFollows(s, ms[0], behind, bufSize);
    FrameSplits(ms[0], behind);
    if code == AGAIN {
      SessionRetries(s, |ms|, bufSize);
    } else if code == OK {
      SessionDelivers(s, ms[0], |ms|, bufSize);
    }
  }

  function Delivering(m: Message, more: Session): Session {
    Session([m] + more.messages, more.code, more.rest)
  }

  lemma PrefixCons<T>(s: seq<T>, t: seq<T>)
    requires s != [] && t <= s[1..]
    ensures [s[0]] + t <= s && (t == s[1..] ==> [s[0]] + t == s)
  {
  }

  /** Whatever the fragmentation, the interrupts, the stalls and the failures, as long as no
      stall comes at a payload's first byte, what a session has received are the first of the
      messages framed, unchanged and in order; it ends early only if the connection fails or
      closes or the script is over, and otherwise behind the last frame. */
  lemma {:induction false} FramesArriveInOrder(s: Source, ms: seq<Message>, tail: seq<Byte>, bufSize: nat)
    requires s.pending == Frames(ms) + tail && AllValid(ms) && AllFit(ms, bufSize) && Unstalled(s.script, ms)
    ensures var r := RecvMany(s, |ms|, bufSize);
            && r.messages <= ms
            && (r.code == OK ==> r.messages == ms && r.rest.pending == tail)
            && (r.code == OK || r.code == IO || r.code == EOF || r.code == WAITING)
    decreases |s.script|, |ms|
  {
    if ms != [] {
      var code, stalled, rest := CallAtBoundary(s, ms, tail, bufSize);
      if code == AGAIN {
        FramesArriveInOrder(rest, ms, tail, bufSize);
      } else if code == OK {
        FramesArriveInOrder(rest, ms[1..], tail, bufSize);
        PrefixCons(ms, RecvMany(rest, |ms| - 1, bufSize).messages);
      }
    }
  }

  // ---------------------------------------------------------------- completion

  /** A script without errors and without a close. */
  predicate Healthy(script: seq<ReadEvent>) {
    forall i :: 0 <= i < |script| ==> script[i] != Fault && script[i] != Closed
  }

  /** How many of the reads will bring something. */
  function Chunks(script: seq<ReadEvent>): (n: nat)
    decreases |script|
  {
    if script == [] then 0 else Chunks(script[1..]) + if script[0].Chunk? then 1 else 0
  }

  /** A read of bytes that are all there, from a healthy script with a chunk for each of them,
      ends with OK or at once with AGAIN, and uses up a chunk for each byte at most. */
  lemma {:induction false} ReadCompletes(s: Source, n: nat, done: seq<Byte>)
    requires |done| <= n <= |done| + |s.pending| && Healthy(s.script) && n - |done| <= Chunks(s.script)
    ensures var r := ReadFrom(s, n, done);
            && (r.code == OK || r.code == AGAIN) && Healthy(r.rest.script)
            && Chunks(r.rest.script) >= Chunks(s.script) - Consumed(s, r.rest)
    decreases |s.script|
  {
    if |done| < n {
      var tail := s.(script := s.script[1..]);
      match s.script[0]
      case Chunk(k) =>
        var r := Min(k, Min(n - |done|, |s.pending|));
        ReadCompletes(Source(s.pending[r..], s.script[1..]), n, done + s.pending[..r]);
      case Interrupted => ReadCompletes(tail, n, done);
      case WouldBlock => ReadCompletes(tail, n, done);
      case _ =>
    }
  }

  lemma MessageCompletes(s: Source, m: Message, rest: seq<Byte>, bufSize: nat)
    requires m.Valid() && Fits(m, bufSize) && s.pending == Frame(m) + rest
    requires Healthy(s.script) && |Frame(m)| <= Chunks(s.script)
    ensures var r := RecvMsg(s, bufSize);
            && (r.code == OK || r.code == AGAIN) && Healthy(r.rest.script)
            && Chunks(r.rest.script) >= Chunks(s.script) - Consumed(s, r.rest)
  {
    HeaderArrives(s, m, rest);
    HeaderAccounting(s);
    ReadCompletes(s, HEADER_SIZE, []);
    var h := RecvHeader(s);
    if h.code == OK {
      ReadCompletes(h.rest, |m.payload|, []);
    }
  }

  lemma FramesLength(ms: seq<Message>, tail: seq<Byte>)
    requires ms != []
    ensures |Frames(ms)| == |Frame(ms[0])| + |Frames(ms[1..])|
    ensures |Frames(ms) + tail| - |Frames(ms[1..]) + tail| == |Frame(ms[0])|
  {
  }

  /** A session on a healthy script with enough chunks that never stalls at a payload's first
      byte succeeds. */
  lemma {:induction false} UnstalledSucceeds(s: Source, ms: seq<Message>, tail: seq<Byte>, bufSize: nat)
    requires s.pending == Frames(ms) + tail && AllValid(ms) && AllFit(ms, bufSize)
    requires Unstalled(s.script, ms) && Healthy(s.script) && |Frames(ms)| <= Chunks(s.script)
    ensures RecvMany(s, |ms|, bufSize).code == OK
    decreases |s.script|, |ms|
  {
    if ms != [] {
      var code, stalled, rest := CallAtBoundary(s, ms, tail, bufSize);
      FramesSplit(ms, tail);
      FramesLength(ms, tail);
      MessageCompletes(s, ms[0], Frames(ms[1..]) + tail, bufSize);
      if code == AGAIN {
        UnstalledSucceeds(rest, ms, tail, bufSize);
      } else {
        UnstalledSucceeds(rest, ms[1..], tail, bufSize);
      }
    }
  }

  /** So it receives every message and ends behind the last frame. */
  lemma UnstalledDelivers(s: Source, ms: seq<Message>, tail: seq<Byte>, bufSize: nat)
    requires s.pending == Frames(ms) + tail && AllValid(ms) && AllFit(ms, bufSize)
    requires Unstalled(s.script, ms) && Healthy(s.script) && |Frames(ms)| <= Chunks(s.script)
    ensures var r := RecvMany(s, |ms|, bufSize); r.code == OK && r.messages == ms && r.rest.pending == tail
  {
    UnstalledSucceeds(s, ms, tail, bufSize);
    FramesArriveInOrder(s, ms, tail, bufSize);
  }

  /** One call of a session that succeeds. */
  lemma CallOfSuccess(s: Source, count: nat, bufSize: nat) returns (again: bool, m: Message, rest: Source)
    requires count > 0 && RecvMany(s, count, bufSize).code == OK
    ensures |rest.script| < |s.script| && |rest.pending| <= |s.pending|
    ensures again ==> RecvMany(s, count, bufSize) == RecvMany(rest, count, bufSize)
    ensures !again ==> RecvMany(s, count, bufSize) == Delivering(m, RecvMany(rest, count - 1, bufSize))
    ensures !again ==> |rest.pending| + HEADER_SIZE + |m.payload| == |s.pending|
  {
    var r := RecvMsg(s, bufSize);
    ProgressOfMsg(s, bufSize);
    MessageAccounting(s, bufSize);
    again, m, rest := r.code == AGAIN, Message(0, 0, []), r.rest;
    if !again {
      PayloadLength(s, bufSize);
      m := Message(r.header.value.kind, r.header.value.seqNo, r.payload);
    }
  }

  /** The bytes that the frames of these messages take. */
  function Volume(ms: seq<Message>): nat
    decreases |ms|
  {
    if ms == [] then 0 else HEADER_SIZE + |ms[0].payload| + Volume(ms[1..])
  }

  lemma {:induction false} FramesVolume(ms: seq<Message>)
    ensures |Frames(ms)| == Volume(ms)
    decreases |ms|
  {
    if ms != [] {
      FramesVolume(ms[1..]);
    }
  }

  /** A session cannot receive more bytes than there are. */
  lemma {:induction false} SessionNeedsBytes(s: Source, count: nat, bufSize: nat, t: Session)
    requires t == RecvMany(s, count, bufSize) && t.code == OK
    ensures Volume(t.messages) <= |s.pending|
    decreases |s.script|, count
  {
    if count > 0 {
      var again, m, rest := CallOfSuccess(s, count, bufSize);
      var left := if again then count else count - 1;
      var next := RecvMany(rest, left, bufSize);
      SessionNeedsBytes(rest, left, bufSize, next);
      VolumeCons(m, next.messages);
    }
  }

  lemma VolumeCons(m: Message, more: seq<Message>)
    ensures Volume([m] + more) == HEADER_SIZE + |m.payload| + Volume(more)
  {
    assert ([m] + more)[1..] == more;
  }

  lemma PayloadLength(s: Source, bufSize: nat)
    requires RecvMsg(s, bufSize).code == OK
    ensures RecvMsg(s, bufSize).header.Some?
    ensures |RecvMsg(s, bufSize).payload| == RecvMsg(s, bufSize).header.value.length
  {
  }

  lemma TailEqual<T>(s: seq<T>, t: seq<T>)
    requires s != [] && [s[0]] + t == s
    ensures s[1..] == t
  {
    assert ([s[0]] + t)[1..] == t;
  }

  /** A session that receives every message never stalled at a payload's first byte: a stall
      there costs a header's bytes, and then there are too few for the rest. */
  lemma {:induction false} DeliveredMeansUnstalled(s: Source, ms: seq<Message>, bufSize: nat)
    requires s.pending == Frames(ms)
    requires AllValid(ms) && AllFit(ms, bufSize)
    requires RecvMany(s, |ms|, bufSize).code == OK && RecvMany(s, |ms|, bufSize).messages == ms
    ensures Unstalled(s.script, ms)
    decreases |s.script|, |ms|
  {
    if ms != [] {
      assert Frames(ms) + [] == Frames(ms) && Frames(ms[1..]) + [] == Frames(ms[1..]);
      var code, stalled, rest := CallAtBoundary(s, ms, [], bufSize);
      if code == AGAIN {
        if stalled {
          SessionNeedsBytes(rest, |ms|, bufSize, RecvMany(s, |ms|, bufSize));
          FramesVolume(ms);
          assert false;
        } else {
          DeliveredMeansUnstalled(rest, ms, bufSize);
        }
      } else {
        TailEqual(ms, RecvMany(rest, |ms| - 1, bufSize).messages);
        DeliveredMeansUnstalled(rest, ms[1..], bufSize);
      }
    }
  }

  /** Exactly when messages get through a connection that does not fail: the script never
      blocks right before a payload's first byte. */
  lemma DeliveredIffUnstalled(s: Source, ms: seq<Message>, bufSize: nat)
    requires s.pending == Frames(ms)
    requires AllValid(ms) && AllFit(ms, bufSize)
    requires Healthy(s.script) && |s.pending| <= Chunks(s.script)
    ensures var r := RecvMany(s, |ms|, bufSize); (r.code == OK && r.messages == ms) <==> Unstalled(s.script, ms)
  {
    if Unstalled(s.script, ms) {
      assert s.pending == Frames(ms) + [];
      UnstalledDelivers(s, ms, [], bufSize);
    }
    var r := RecvMany(s, |ms|, bufSize);
    if r.code == OK && r.messages == ms {
      DeliveredMeansUnstalled(s, ms, bufSize);
    }
  }

  // ---------------------------------------------------------------- sending

  /** Sending puts the whole frame on the wire when it succeeds, and a prefix of it always;
      but a payload that is announced and absent leaves the frame short. */
  lemma SendPutsFrame(k: Sink, kind: nat, seqNo: nat, payload: seq<Byte>)
    ensures var m := Message(kind, seqNo, payload);
            var r := SendMsg(k, kind, seqNo, Some(payload), |payload|);
            && |k.wire| <= |r.rest.wire| <= |k.wire| + |Frame(m)|
            && r.rest.wire == k.wire + Frame(m)[..|r.rest.wire| - |k.wire|]
            && (r.code == OK <==> |r.rest.wire| == |k.wire| + |Frame(m)|)
  {
    var bs := EncodeHeader(HeaderOf(kind, seqNo, |payload|));
    assert Frame(Message(kind, seqNo, payload)) == bs + payload;
    assert SendMsg(k, kind, seqNo, Some(payload), |payload|) == WriteBoth(k, bs, payload);
    BothPutPrefix(k, bs, payload);
  }

  /** One write and, when it succeeds, another. */
  function WriteBoth(k: Sink, bs: seq<Byte>, more: seq<Byte>): Sent {
    var h := WriteFrom(k, bs, 0);
    if h.code != OK || more == [] then h else WriteFrom(h.rest, more, 0)
  }

  lemma BothPutPrefix(k: Sink, bs: seq<Byte>, more: seq<Byte>)
    ensures var r := WriteBoth(k, bs, more);
            var n := |r.rest.wire| - |k.wire|;
            && 0 <= n <= |bs + more| && r.rest.wire == k.wire + (bs + more)[..n]
            && (r.code == OK <==> n == |bs + more|)
  {
    var h := WriteFrom(k, bs, 0);
    WritePutsPrefix(k, bs);
    if h.code == OK && more != [] {
      WritePutsPrefix(h.rest, more);
      TakeAcross(k.wire, bs, more, |WriteFrom(h.rest, more, 0).rest.wire| - |h.rest.wire|);
    } else {
      TakeWithin(bs, more, |h.rest.wire| - |k.wire|);
    }
  }

  lemma TakeAcross<T>(w: seq<T>, s: seq<T>, t: seq<T>, n: nat)
    requires n <= |t|
    ensures w + (s + t)[..|s| + n] == w + s + t[..n]
  {
    assert (s + t)[..|s| + n] == s + t[..n];
  }

  lemma TakeWithin<T>(s: seq<T>, t: seq<T>, n: nat)
    requires n <= |s|
    ensures (s + t)[..n] == s[..n]
  {
  }

  /** A write puts a prefix on the wire, the whole exactly when it succeeds. */
  lemma WritePutsPrefix(k: Sink, data: seq<Byte>)
    ensures var r := WriteFrom(k, data, 0);
            var n := |r.rest.wire| - |k.wire|;
            && 0 <= n <= |data| && r.rest.wire == k.wire + data[..n]
            && (r.code == OK <==> n == |data|)
  {
    WriteFinishes(k, data, 0);
  }

  lemma {:induction false} WriteFinishes(k: Sink, data: seq<Byte>, done: nat)
    requires done <= |data|
    ensures var r := WriteFrom(k, data, done);
            r.code == OK <==> |r.rest.wire| == |k.wire| + |data| - done
    decreases |k.script|
  {
    if done < |data| && k.script != [] {
      match k.script[0]
      case WriteInterrupted => WriteFinishes(k.(script := k.script[1..]), data, done);
      case WriteFault =>
      case Accept(n) =>
        var r := Min(n, |data| - done);
        WriteFinishes(Sink(k.wire + data[done..done + r], k.script[1..]), data, done + r);
    }
  }

  /** A payload that is announced but absent is reported as sent with only its header on
      the wire: what went out is a whole frame if and only if the announced length is 0. */
  lemma AbsentPayloadIsShort(k: Sink, kind: nat, seqNo: nat, length: nat, payload: seq<Byte>)
    requires |payload| == length && Message(kind, seqNo, payload).Valid()
    requires SendMsg(k, kind, seqNo, None, length).code == OK
    ensures SendMsg(k, kind, seqNo, None, length).rest.wire == k.wire + Frame(Message(kind, seqNo, payload))
            <==> length == 0
  {
    WriteFinishes(k, EncodeHeader(HeaderOf(kind, seqNo, length)), 0);
  }

  /** Sends each message in turn, stopping at the first failure. */
  function SendMany(k: Sink, ms: seq<Message>): (r: Sent)
    decreases |ms|
  {
    if ms == [] then Sent(OK, k)
    else
      var r := SendMsg(k, ms[0].kind, ms[0].seqNo, Some(ms[0].payload), |ms[0].payload|);
      if r.code == OK then SendMany(r.rest, ms[1..]) else r
  }

  lemma {:induction false} SendManyPutsFrames(k: Sink, ms: seq<Message>)
    requires SendMany(k, ms).code == OK
    ensures SendMany(k, ms).rest.wire == k.wire + Frames(ms)
    decreases |ms|
  {
    if ms != [] {
      var m := ms[0];
      SendPutsFrame(k, m.kind, m.seqNo, m.payload);
      var r := SendMsg(k, m.kind, m.seqNo, Some(m.payload), |m.payload|);
      SendManyPutsFrames(r.rest, ms[1..]);
      assert k.wire + Frame(m) + Frames(ms[1..]) == k.wire + (Frame(m) + Frames(ms[1..]));
    }
  }

  /** A script of writes without an error. */
  predicate Willing(script: seq<WriteEvent>) {
    forall i :: 0 <= i < |script| ==> script[i] != WriteFault
  }

  /** How many of the writes will take something. */
  function Accepting(script: seq<WriteEvent>): (n: nat)
    decreases |script|
  {
    if script == [] then 0
    else Accepting(script[1..]) + if script[0].Accept? && script[0].n > 0 then 1 else 0
  }

  lemma {:induction false} WriteCompletes(k: Sink, data: seq<Byte>, done: nat)
    requires done <= |data| && Willing(k.script) && |data| - done <= Accepting(k.script)
    ensures var r := WriteFrom(k, data, done);
            r.code == OK && Willing(r.rest.script) && Accepting(r.rest.script) >= Accepting(k.script) - (|data| - done)
    decreases |k.script|
  {
    if done < |data| {
      match k.script[0]
      case WriteInterrupted => WriteCompletes(k.(script := k.script[1..]), data, done);
      case WriteFault =>
      case Accept(n) =>
        var r := Min(n, |data| - done);
        WriteCompletes(Sink(k.wire + data[done..done + r], k.script[1..]), data, done + r);
    }
  }

  lemma SendCompletes(k: Sink, m: Message)
    requires Willing(k.script) && |Frame(m)| <= Accepting(k.script)
    ensures var r := SendMsg(k, m.kind, m.seqNo, Some(m.payload), |m.payload|);
            && r.code == OK && Willing(r.rest.script)
            && Accepting(r.rest.script) >= Accepting(k.script) - |Frame(m)|
  {
    var bs := EncodeHeader(HeaderOf(m.kind, m.seqNo, |m.payload|));
    WriteCompletes(k, bs, 0);
    if m.payload != [] {
      WriteCompletes(WriteFrom(k, bs, 0).rest, m.payload, 0);
    }
  }

  /** Sending succeeds when no write fails and enough of them take something. */
  lemma {:induction false} SendManyCompletes(k: Sink, ms: seq<Message>)
    requires Willing(k.script) && |Frames(ms)| <= Accepting(k.script)
    ensures SendMany(k, ms).code == OK
    decreases |ms|
  {
    if ms != [] {
      var m := ms[0];
      SendCompletes(k, m);
      SendManyCompletes(SendMsg(k, m.kind, m.seqNo, Some(m.payload), |m.payload|).rest, ms[1..]);
    }
  }

  /** End to end: over a connection that splits and interrupts writes, and splits, interrupts
      and stalls reads as it likes, but does not fail, messages that fit are all sent, and are
      received unchanged and in order if and only if no read stalls right before a payload's
      first byte; nothing is then left over. */
  lemma SentIsReceived(ms: seq<Message>, writeScript: seq<WriteEvent>, readScript: seq<ReadEvent>, bufSize: nat)
    requires AllValid(ms) && AllFit(ms, bufSize)
    requires Willing(writeScript) && |Frames(ms)| <= Accepting(writeScript)
    requires Healthy(readScript) && |Frames(ms)| <= Chunks(readScript)
    ensures SendMany(Sink([], writeScript), ms).code == OK
    ensures var wire := SendMany(Sink([], writeScript), ms).rest.wire;
            var r := RecvMany(Source(wire, readScript), |ms|, bufSize);
            && ((r.code == OK && r.messages == ms) <==> Unstalled(readScript, ms))
            && (Unstalled(readScript, ms) ==> r.rest.pending == [])
  {
    SendManyCompletes(Sink([], writeScript), ms);
    SendManyPutsFrames(Sink([], writeScript), ms);
    var wire := SendMany(Sink([], writeScript), ms).rest.wire;
    assert wire == Frames(ms);
    DeliveredIffUnstalled(Source(wire, readScript), ms, bufSize);
    if Unstalled(readScript, ms) {
      assert wire == Frames(ms) + [];
      UnstalledDelivers(Source(wire, readScript), ms, [], bufSize);
    }
  }
}
