/** The monitor protocol's frames on a byte stream that fragments, interrupts and stalls. */
module WireFormat {
  import opened Bytes
  import opened Words

  const MON_MSG_MAGIC := 0x4D4F4E00
  const MON_PROTOCOL_VERSION := 1
  const MON_MAX_PAYLOAD_BYTES := 16 * 1024 * 1024
  const HEADER_SIZE := 16
  const DISCARD_CHUNK := 256

  datatype Option<T> = None | Some(value: T)

  datatype Header = Header(magic: nat, kind: nat, version: nat, flags: nat, length: nat, seqNo: nat) {
    ghost predicate Valid() {
      && magic < Pow256(4) && kind < Pow256(1) && version < Pow256(1)
      && flags < Pow256(2) && length < Pow256(4) && seqNo < Pow256(4)
    }
  }

  /** A message; `kind` is its type. */
  datatype Message = Message(kind: nat, seqNo: nat, payload: seq<Byte>) {
    ghost predicate Valid() {
      kind < Pow256(1) && seqNo < Pow256(4) && |payload| < Pow256(4)
    }
  }

  function EncodeHeader(h: Header): (bs: seq<Byte>)
    ensures |bs| == HEADER_SIZE
  {
    ToBytes(h.magic, 4) + ToBytes(h.kind, 1) + ToBytes(h.version, 1) + ToBytes(h.flags, 2)
    + ToBytes(h.length, 4) + ToBytes(h.seqNo, 4)
  }

  function DecodeHeader(bs: seq<Byte>): Header
    requires |bs| == HEADER_SIZE
  {
    Header(FromBytes(bs[0..4]), FromBytes(bs[4..5]), FromBytes(bs[5..6]), FromBytes(bs[6..8]),
           FromBytes(bs[8..12]), FromBytes(bs[12..16]))
  }

  function HeaderOf(kind: nat, seqNo: nat, length: nat): Header {
    Header(MON_MSG_MAGIC, kind, MON_PROTOCOL_VERSION, 0, length, seqNo)
  }

  function Frame(m: Message): (bs: seq<Byte>)
    ensures |bs| == HEADER_SIZE + |m.payload|
  {
    EncodeHeader(HeaderOf(m.kind, m.seqNo, |m.payload|)) + m.payload
  }

  function Frames(ms: seq<Message>): seq<Byte> {
    if ms == [] then [] else Frame(ms[0]) + Frames(ms[1..])
  }

  lemma Fields(a: seq<Byte>, b: seq<Byte>, c: seq<Byte>, d: seq<Byte>, e: seq<Byte>, f: seq<Byte>)
    requires |a| == 4 && |b| == 1 && |c| == 1 && |d| == 2 && |e| == 4 && |f| == 4
    ensures var bs := a + b + c + d + e + f;
            bs[0..4] == a && bs[4..5] == b && bs[5..6] == c && bs[6..8] == d && bs[8..12] == e && bs[12..16] == f
  {
  }

  lemma HeaderRoundTrip(h: Header)
    requires h.Valid()
    ensures DecodeHeader(EncodeHeader(h)) == h
  {
    Fields(ToBytes(h.magic, 4), ToBytes(h.kind, 1), ToBytes(h.version, 1), ToBytes(h.flags, 2),
           ToBytes(h.length, 4), ToBytes(h.seqNo, 4));
    RoundTrip(h.magic, 4);
    RoundTrip(h.kind, 1);
    RoundTrip(h.version, 1);
    RoundTrip(h.flags, 2);
    RoundTrip(h.length, 4);
    RoundTrip(h.seqNo, 4);
  }

  // ---------------------------------------------------------------- the environment

  type Positive = n: nat | n > 0 witness 1

  /** What the next read() does: hand over up to n bytes, or fail with EINTR, with EAGAIN,
      with another error, or report that the peer has closed. */
  datatype ReadEvent = Chunk(n: Positive) | Interrupted | WouldBlock | Fault | Closed

  /** What the next write() does: take up to n bytes, or fail with EINTR or otherwise. */
  datatype WriteEvent = Accept(n: nat) | WriteInterrupted | WriteFault

  /** The receiving side: bytes on their way and what the coming reads will do. */
  datatype Source = Source(pending: seq<Byte>, script: seq<ReadEvent>)

  /** The sending side: bytes on the wire and what the coming writes will do. */
  datatype Sink = Sink(wire: seq<Byte>, script: seq<WriteEvent>)

  /** The codes of the wire functions; WAITING says that the script ended before the call
      returned. */
  datatype Code = OK | IO | EOF | FRAME | SIZE | AGAIN | WAITING

  // ---------------------------------------------------------------- receiving

  datatype Received = Received(code: Code, data: seq<Byte>, rest: Source)

  /** mon_read_all for n bytes, when `done` have been read already. */
  function ReadFrom(s: Source, n: nat, done: seq<Byte>): (r: Received)
    requires |done| <= n
    ensures done + s.pending == r.data + r.rest.pending && done <= r.data && |r.data| <= n
    ensures r.code == OK <==> |r.data| == n
    ensures r.code == AGAIN ==> r.data == done == []
    ensures r.code in {OK, IO, EOF, AGAIN, WAITING}
    ensures |r.rest.script| <= |s.script|
    ensures |done| < n && r.code != WAITING ==> |r.rest.script| < |s.script|
    decreases |s.script|
  {
    if |done| == n then Received(OK, done, s)
    else if s.script == [] then Received(WAITING, done, s)
    else
      var tail := s.(script := s.script[1..]);
      match s.script[0]
      case Interrupted => ReadFrom(tail, n, done)
      case Fault => Received(IO, done, tail)
      case Closed => Received(EOF, done, tail)
      case WouldBlock => if done == [] then Received(AGAIN, [], tail) else ReadFrom(tail, n, done)
      case Chunk(k) =>
        if s.pending == [] then
          if done == [] then Received(AGAIN, [], tail) else ReadFrom(tail, n, done)
        else
          var r := Min(k, Min(n - |done|, |s.pending|));
          assert done + s.pending == (done + s.pending[..r]) + s.pending[r..];
          ReadFrom(Source(s.pending[r..], s.script[1..]), n, done + s.pending[..r])
  }

  function ReadAll(s: Source, n: nat): Received {
    ReadFrom(s, n, [])
  }

  datatype HeaderReceived = HeaderReceived(code: Code, header: Option<Header>, rest: Source)

  /** mon_recv_header: the header is filled in whenever all its bytes have come. */
  function RecvHeader(s: Source): (r: HeaderReceived)
  {
    var d := ReadAll(s, HEADER_SIZE);
    if d.code != OK then HeaderReceived(d.code, None, d.rest)
    else
      var h := DecodeHeader(d.data);
      var code := if h.magic != MON_MSG_MAGIC then FRAME
                  else if h.version != MON_PROTOCOL_VERSION then FRAME
                  else if h.length > MON_MAX_PAYLOAD_BYTES then SIZE
                  else OK;
      HeaderReceived(code, Some(h), d.rest)
  }

  datatype MessageReceived = MessageReceived(code: Code, header: Option<Header>, payload: seq<Byte>, rest: Source)

  /** mon_recv_msg into a buffer of bufSize bytes. */
  function RecvMsg(s: Source, bufSize: nat): (r: MessageReceived)
  {
    var h := RecvHeader(s);
    if h.code != OK then MessageReceived(h.code, h.header, [], h.rest)
    else if h.header.value.length == 0 then MessageReceived(OK, h.header, [], h.rest)
    else if h.header.value.length > bufSize then MessageReceived(SIZE, h.header, [], h.rest)
    else
      var d := ReadAll(h.rest, h.header.value.length);
      MessageReceived(d.code, h.header, if d.code == OK then d.data else [], d.rest)
  }

  datatype Discarded = Discarded(code: Code, rest: Source)

  /** mon_discard_payload with `remaining` bytes to go. */
  function Discard(s: Source, remaining: nat): (r: Discarded)
    decreases remaining
  {
    if remaining == 0 then Discarded(OK, s)
    else
      var chunk := Min(remaining, DISCARD_CHUNK);
      var d := ReadAll(s, chunk);
      if d.code != OK then Discarded(d.code, d.rest) else Discard(d.rest, remaining - chunk)
  }

  // ---------------------------------------------------------------- sending

  datatype Sent = Sent(code: Code, rest: Sink)

  /** mon_write_all when the first `done` bytes are out. */
  function WriteFrom(k: Sink, data: seq<Byte>, done: nat): (r: Sent)
    requires done <= |data|
    ensures r.code in {OK, IO, WAITING}
    ensures |k.wire| <= |r.rest.wire| <= |k.wire| + |data| - done
    ensures r.rest.wire == k.wire + data[done..done + (|r.rest.wire| - |k.wire|)]
    ensures r.code == OK ==> r.rest.wire == k.wire + data[done..]
    decreases |k.script|
  {
    if done == |data| then Sent(OK, k)
    else if k.script == [] then Sent(WAITING, k)
    else
      match k.script[0]
      case WriteInterrupted => WriteFrom(k.(script := k.script[1..]), data, done)
      case WriteFault => Sent(IO, k.(script := k.script[1..]))
      case Accept(n) =>
        var r := Min(n, |data| - done);
        WriteFrom(Sink(k.wire + data[done..done + r], k.script[1..]), data, done + r)
  }

  /** mon_send_msg: the payload may be absent. */
  function SendMsg(k: Sink, kind: nat, seqNo: nat, payload: Option<seq<Byte>>, length: nat): (r: Sent)
    requires payload.Some? ==> |payload.value| == length
  {
    var h := WriteFrom(k, EncodeHeader(HeaderOf(kind, seqNo, length)), 0);
    if h.code != OK || length == 0 || payload.None? then h
    else WriteFrom(h.rest, payload.value, 0)
  }
}
