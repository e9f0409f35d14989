/** The wire functions as loops over a connected socket. */
module WireSocket {
  import opened Bytes
  import opened WireFormat
  import opened Words

  datatype Errno = NoError | Again | Intr | Other | Ended

  class Socket {
    var pending: seq<Byte>
    var readScript: seq<ReadEvent>
    var wire: seq<Byte>
    var writeScript: seq<WriteEvent>

    constructor (arriving: seq<Byte>, readEvents: seq<ReadEvent>, writeEvents: seq<WriteEvent>)
      ensures Incoming() == Source(arriving, readEvents)
      ensures Outgoing() == Sink([], writeEvents)
    {
      pending, readScript, wire, writeScript := arriving, readEvents, [], writeEvents;
    }

    function Incoming(): Source
      reads this
    {
      Source(pending, readScript)
    }

    function Outgoing(): Sink
      reads this
    {
      Sink(wire, writeScript)
    }

    /** The system's read(): the next event of the script, put at `at` in the buffer. */
    method SysRead(buf: array<Byte>, at: nat, room: nat) returns (got: int, errno: Errno)
      requires at + room <= buf.Length && room > 0
      modifies this, buf
      ensures Outgoing() == old(Outgoing())
      ensures errno == Ended <==> old(readScript) == []
      ensures errno == Ended ==> Incoming() == old(Incoming())
      ensures errno != Ended ==> readScript == old(readScript[1..])
      ensures got <= 0 ==> pending == old(pending) && buf[..] == old(buf[..])
      ensures got > 0 ==> got <= room && got <= |old(pending)| && pending == old(pending[got..])
                          && buf[..at + got] == old(buf[..at] + pending[..got])
                          && buf[at + got..] == old(buf[at + got..])
      ensures errno != Ended ==> match old(readScript[0])
                case Interrupted => got < 0 && errno == Intr
                case WouldBlock => got < 0 && errno == Again
                case Fault => got < 0 && errno == Other
                case Closed => got == 0
                case Chunk(k) => if old(pending) == [] then got < 0 && errno == Again
                                 else got == Min(k, Min(room, |old(pending)|))
    {
      got, errno := -1, NoError;
      if readScript == [] {
        errno := Ended;
        return;
      }
      match readScript[0] {
        case Interrupted => errno := Intr;
        case WouldBlock => errno := Again;
        case Fault => errno := Other;
        case Closed => got := 0;
        case Chunk(k) =>
          if pending == [] {
            errno := Again;
          } else {
            got := Min(k, Min(room, |pending|));
            var bs := pending[..got];
            forall i | 0 <= i < got {
              buf[at + i] := bs[i];
            }
            pending := pending[got..];
          }
      }
      readScript := readScript[1..];
    }

    /** The body of mon_read_all's loop: one read, behind the bytes done. It is the last one
        when `over`, and the call then returns the code. */
    method ReadOnce(buf: array<Byte>, n: nat, done: nat) returns (over: bool, code: Code, got: nat)
      requires done < n <= buf.Length
      modifies this, buf
      ensures Outgoing() == old(Outgoing())
      ensures done + got <= n && buf[done + got..] == old(buf[done + got..])
      ensures over ==> got == 0
                       && Received(code, buf[..done], Incoming()) == ReadFrom(old(Incoming()), n, old(buf[..done]))
      ensures !over ==> |readScript| < |old(readScript)|
      ensures !over ==> ReadFrom(Incoming(), n, buf[..done + got]) == ReadFrom(old(Incoming()), n, old(buf[..done]))
    {
      ghost var before, have := Incoming(), buf[..done];
      var r, errno := SysRead(buf, done, n - done);
      over, code, got := false, OK, 0;
      if errno == Ended {
        over, code := true, WAITING;
      } else if r < 0 {
        assert buf[..done] == have;
        if errno == Again {
          if done == 0 {
            over, code := true, AGAIN;
          }
        } else if errno != Intr {
          over, code := true, IO;
        }
      } else if r == 0 {
        assert buf[..done] == have;
        over, code := true, EOF;
      } else {
        assert buf[..done + r] == have + before.pending[..r];
        got := r;
      }
    }

    /** mon_read_all: what came is in the buffer, whatever the outcome. */
    method ReadAll(buf: array<Byte>, n: nat) returns (code: Code)
      requires n <= buf.Length
      modifies this, buf
      ensures Outgoing() == old(Outgoing())
      ensures var d := WireFormat.ReadAll(old(Incoming()), n);
              && code == d.code && Incoming() == d.rest
              && buf[..|d.data|] == d.data && buf[|d.data|..] == old(buf[|d.data|..])
    {
      var done: nat := 0;
      while done < n
        invariant done <= n
        invariant Outgoing() == old(Outgoing())
        invariant buf[done..] == old(buf[done..])
        invariant ReadFrom(Incoming(), n, buf[..done]) == WireFormat.ReadAll(old(Incoming()), n)
        decreases |readScript|, n - done
      {
        var over, result, got := ReadOnce(buf, n, done);
        if over {
          return result;
        }
        done := done + got;
      }
      code := OK;
    }

    /** mon_recv_header */
    method RecvHeader() returns (code: Code, header: Option<Header>)
      modifies this
      ensures Outgoing() == old(Outgoing())
      ensures HeaderReceived(code, header, Incoming()) == WireFormat.RecvHeader(old(Incoming()))
    {
      var bytes := new Byte[HEADER_SIZE];
      code := ReadAll(bytes, HEADER_SIZE);
      header := None;
      if code != OK {
        return;
      }
      assert bytes[..HEADER_SIZE] == bytes[..];
      var h := DecodeHeader(bytes[..]);
      header := Some(h);
      if h.magic != MON_MSG_MAGIC {
        code := FRAME;
      } else if h.version != MON_PROTOCOL_VERSION {
        code := FRAME;
      } else if h.length > MON_MAX_PAYLOAD_BYTES {
        code := SIZE;
      }
    }

    /** mon_recv_msg: the buffer holds the payload exactly when the call says OK. */
    method RecvMsg(buf: array<Byte>) returns (code: Code, header: Option<Header>, readLen: nat)
      modifies this, buf
      ensures Outgoing() == old(Outgoing())
      ensures var r := WireFormat.RecvMsg(old(Incoming()), buf.Length);
              && code == r.code && header == r.header && Incoming() == r.rest
              && readLen == |r.payload| <= buf.Length && buf[..readLen] == r.payload
    {
      readLen := 0;
      code, header := RecvHeader();
      if code != OK || header.value.length == 0 {
        return;
      }
      if header.value.length > buf.Length {
        code := SIZE;
        return;
      }
      code := ReadAll(buf, header.value.length);
      if code == OK {
        readLen := header.value.length;
      }
    }

    /** mon_discard_payload */
    method DiscardPayload(length: nat) returns (code: Code)
      modifies this
      ensures Outgoing() == old(Outgoing())
      ensures Discarded(code, Incoming()) == Discard(old(Incoming()), length)
    {
      var tmp := new Byte[DISCARD_CHUNK];
      var remaining := length;
      while remaining > 0
        invariant Outgoing() == old(Outgoing())
        invariant Discard(Incoming(), remaining) == Discard(old(Incoming()), length)
        decreases remaining
      {
        var chunk := Min(remaining, DISCARD_CHUNK);
        code := ReadAll(tmp, chunk);
        if code != OK {
          return;
        }
        remaining := remaining - chunk;
      }
      code := OK;
    }

    /** mon_write_all */
    method WriteAll(data: seq<Byte>) returns (code: Code)
      modifies this
      ensures Incoming() == old(Incoming())
      ensures Sent(code, Outgoing()) == WriteFrom(old(Outgoing()), data, 0)
    {
      var done: nat := 0;
      while done < |data|
        invariant done <= |data|
        invariant Incoming() == old(Incoming())
        invariant WriteFrom(Outgoing(), data, done) == WriteFrom(old(Outgoing()), data, 0)
        decreases |writeScript|
      {
        if writeScript == [] {
          return WAITING;
        }
        var event := writeScript[0];
        writeScript := writeScript[1..];
        match event {
          case WriteInterrupted => continue;
          case WriteFault => return IO;
          case Accept(n) =>
            var r := Min(n, |data| - done);
            wire := wire + data[done..done + r];
            done := done + r;
        }
      }
      code := OK;
    }

    /** mon_send_msg */
    method SendMsg(kind: nat, seqNo: nat, payload: Option<seq<Byte>>, length: nat) returns (code: Code)
      requires payload.Some? ==> |payload.value| == length
      modifies this
      ensures Incoming() == old(Incoming())
      ensures Sent(code, Outgoing()) == WireFormat.SendMsg(old(Outgoing()), kind, seqNo, payload, length)
    {
      code := WriteAll(EncodeHeader(HeaderOf(kind, seqNo, length)));
      if code != OK {
        return;
      }
      if length > 0 && payload.Some? {
        code := WriteAll(payload.value);
      }
    }
  }
}
