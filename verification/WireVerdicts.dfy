/** What the codes of the wire functions say about the bytes and the connection, and what a
    header is byte by byte. */
module WireVerdicts {
  import opened Bytes
  import opened WireDelivery
  import opened WireFormat
  import opened Words

  // ---------------------------------------------------------------- the header's bytes

  /** Four bytes as a number, lowest first. */
  function Four(a: Byte, b: Byte, c: Byte, d: Byte): nat {
    a + 256 * b + 65536 * c + 16777216 * d
  }

  function Two(a: Byte, b: Byte): nat {
    a + 256 * b
  }

  lemma FourBytes(bs: seq<Byte>)
    requires |bs| == 4
    ensures FromBytes(bs) == Four(bs[0], bs[1], bs[2], bs[3])
  {
    TwoBytes(bs[2..]);
    assert bs[1..][1..] == bs[2..];
    assert FromBytes(bs[1..]) == bs[1] + 256 * FromBytes(bs[2..]);
  }

  lemma TwoBytes(bs: seq<Byte>)
    requires |bs| == 2
    ensures FromBytes(bs) == Two(bs[0], bs[1])
  {
    OneByte(bs[1..]);
  }

  lemma OneByte(bs: seq<Byte>)
    requires |bs| == 1
    ensures FromBytes(bs) == bs[0]
  {
    assert bs[1..] == [];
  }

  /** Where each field is. */
  lemma DecodeIs(bs: seq<Byte>)
    requires |bs| == 16
    ensures DecodeHeader(bs) == Header(Four(bs[0], bs[1], bs[2], bs[3]), bs[4], bs[5], Two(bs[6], bs[7]),
                                       Four(bs[8], bs[9], bs[10], bs[11]), Four(bs[12], bs[13], bs[14], bs[15]))
  {
    FourBytes(bs[0..4]);
    OneByte(bs[4..5]);
    OneByte(bs[5..6]);
    TwoBytes(bs[6..8]);
    FourBytes(bs[8..12]);
    FourBytes(bs[12..16]);
  }

  lemma MagicBytes(a: Byte, b: Byte, c: Byte, d: Byte)
    ensures Four(a, b, c, d) == 0x4D4F4E00 <==> a == 0x00 && b == 0x4E && c == 0x4F && d == 0x4D
  {
  }

  /** What the first 16 bytes make of a header once they have come: FRAME unless they begin
      with 00 4E 4F 4D and the sixth is 1, else SIZE when the length in bytes 8 to 11 is over
      16 MiB, else OK; and the fields handed over are the bytes in their places. */
  lemma HeaderVerdict(s: Source)
    requires RecvHeader(s).header.Some?
    ensures |s.pending| >= 16
    ensures var bs := s.pending[..16];
            var r := RecvHeader(s);
            && (r.code == FRAME <==> bs[..4] != [0x00, 0x4E, 0x4F, 0x4D] || bs[5] != 1)
            && (r.code == SIZE <==> bs[..4] == [0x00, 0x4E, 0x4F, 0x4D] && bs[5] == 1
                                    && Four(bs[8], bs[9], bs[10], bs[11]) > 16777216)
            && (r.code in {FRAME, SIZE, OK})
            && r.header.value.kind == bs[4] && r.header.value.flags == Two(bs[6], bs[7])
            && r.header.value.length == Four(bs[8], bs[9], bs[10], bs[11])
            && r.header.value.seqNo == Four(bs[12], bs[13], bs[14], bs[15])
  {
    var d := ReadAll(s, HEADER_SIZE);
    ReadTakesPrefix(s, HEADER_SIZE);
    var bs := s.pending[..16];
    assert d.data == bs;
    DecodeIs(bs);
    MagicBytes(bs[0], bs[1], bs[2], bs[3]);
    assert bs[..4] == [bs[0], bs[1], bs[2], bs[3]];
  }

  lemma ToOneByte(x: nat)
    requires x < 256
    ensures ToBytes(x, 1) == [x]
  {
    assert ToBytes(x / 256, 0) == [];
  }

  lemma ToTwoBytes(x: nat)
    requires x < 65536
    ensures ToBytes(x, 2) == [x % 256, x / 256]
  {
    ToOneByte(x / 256);
  }

  lemma ToFourBytes(x: nat)
    requires x < 0x1_0000_0000
    ensures ToBytes(x, 4) == [x % 256, x / 256 % 256, x / 65536 % 256, x / 16777216]
  {
    var y, z := x / 256, x / 65536;
    assert y / 256 == z && z / 256 == x / 16777216;
    ToTwoBytes(z);
    ThreeMore(y, ToBytes(z, 2));
    ThreeMore(x, ToBytes(y, 3));
  }

  lemma ThreeMore(x: nat, more: seq<Byte>)
    requires more == ToBytes(x / 256, |more|)
    ensures ToBytes(x, |more| + 1) == [x % 256] + more
  {
  }

  /** The 16 bytes that go out before a payload, and the payload right behind them. */
  lemma FrameLayout(m: Message)
    requires m.Valid()
    ensures var n := |m.payload|;
            Frame(m) == [0x00, 0x4E, 0x4F, 0x4D] + [m.kind, 1, 0, 0]
                        + [n % 256, n / 256 % 256, n / 65536 % 256, n / 16777216]
                        + [m.seqNo % 256, m.seqNo / 256 % 256, m.seqNo / 65536 % 256, m.seqNo / 16777216]
                        + m.payload
  {
    assert Pow256(1) == 256 && Pow256(4) == 0x1_0000_0000;
    ToFourBytes(0x4D4F4E00);
    ToOneByte(m.kind);
    ToOneByte(1);
    ToTwoBytes(0);
    ToFourBytes(|m.payload|);
    ToFourBytes(m.seqNo);
    Middle(ToBytes(m.kind, 1), ToBytes(1, 1), ToBytes(0, 2), m.kind);
    SixFields(ToBytes(0x4D4F4E00, 4), ToBytes(m.kind, 1), ToBytes(1, 1), ToBytes(0, 2),
              ToBytes(|m.payload|, 4), ToBytes(m.seqNo, 4));
  }

  lemma Middle(a: seq<Byte>, b: seq<Byte>, c: seq<Byte>, kind: Byte)
    requires a == [kind] && b == [1] && c == [0, 0]
    ensures a + b + c == [kind, 1, 0, 0]
  {
  }

  lemma SixFields<T>(a: seq<T>, b: seq<T>, c: seq<T>, d: seq<T>, e: seq<T>, f: seq<T>)
    ensures a + b + c + d + e + f == a + (b + c + d) + e + f
  {
  }

  // ---------------------------------------------------------------- the connection's codes

  /** A call went through its script up to `rest`: IO says that it stopped at an error, EOF
      that it stopped at the peer's close, WAITING that the script was over, and any other
      code that it met neither error nor close. */
  predicate ReadStopped(script: seq<ReadEvent>, rest: seq<ReadEvent>, code: Code) {
    var k := |script| - |rest|;
    && 0 <= k && rest == script[k..]
    && (forall i :: 0 <= i < k - 1 ==> script[i] != Fault && script[i] != Closed)
    && (code == IO <==> k > 0 && script[k - 1] == Fault)
    && (code == EOF <==> k > 0 && script[k - 1] == Closed)
    && (code == WAITING ==> rest == [])
  }

  lemma ReadGoesOn(script: seq<ReadEvent>, rest: seq<ReadEvent>, code: Code)
    requires script != [] && script[0] != Fault && script[0] != Closed
    requires ReadStopped(script[1..], rest, code)
    ensures ReadStopped(script, rest, code)
  {
    var k, tail := |script| - |rest|, script[1..];
    DropDrop(script, tail, rest, 1, k - 1);
    if k > 1 {
      assert script[k - 1] == tail[k - 2];
    }
    forall i | 0 <= i < k - 1 ensures script[i] != Fault && script[i] != Closed {
      if i > 0 {
        assert script[i] == tail[i - 1];
      }
    }
  }

  /** This is how every read ends, whatever it has read. */
  lemma {:induction false} ReadStopsAt(s: Source, n: nat, done: seq<Byte>)
    requires |done| <= n
    ensures ReadStopped(s.script, ReadFrom(s, n, done).rest.script, ReadFrom(s, n, done).code)
    decreases |s.script|
  {
    if |done| < n && s.script != [] && GoesOn(s, done) {
      var next, have := NextRead(s, n, done);
      ReadStopsAt(next, n, have);
      ReadGoesOn(s.script, ReadFrom(next, n, have).rest.script, ReadFrom(next, n, have).code);
    }
  }

  /** The next event does not end the read. */
  predicate GoesOn(s: Source, done: seq<Byte>)
    requires s.script != []
  {
    match s.script[0]
    case Chunk(_) => s.pending != [] || done != []
    case Interrupted => true
    case WouldBlock => done != []
    case _ => false
  }

  lemma NextRead(s: Source, n: nat, done: seq<Byte>) returns (next: Source, have: seq<Byte>)
    requires |done| < n && s.script != [] && GoesOn(s, done)
    ensures |have| <= n && next.script == s.script[1..]
    ensures ReadFrom(s, n, done) == ReadFrom(next, n, have)
  {
    next, have := s.(script := s.script[1..]), done;
    if s.script[0].Chunk? && s.pending != [] {
      var r := Min(s.script[0].n, Min(n - |done|, |s.pending|));
      next, have := Source(s.pending[r..], s.script[1..]), done + s.pending[..r];
    }
  }

  /** The same for a write, which knows only errors. */
  predicate WriteStopped(script: seq<WriteEvent>, rest: seq<WriteEvent>, code: Code) {
    var k := |script| - |rest|;
    && 0 <= k && rest == script[k..]
    && (forall i :: 0 <= i < k - 1 ==> script[i] != WriteFault)
    && (code == IO <==> k > 0 && script[k - 1] == WriteFault)
    && (code == WAITING ==> rest == [])
  }

  lemma WriteGoesOn(script: seq<WriteEvent>, rest: seq<WriteEvent>, code: Code)
    requires script != [] && script[0] != WriteFault && WriteStopped(script[1..], rest, code)
    ensures WriteStopped(script, rest, code)
  {
    var k, tail := |script| - |rest|, script[1..];
    DropDrop(script, tail, rest, 1, k - 1);
    if k > 1 {
      assert script[k - 1] == tail[k - 2];
    }
    forall i | 0 <= i < k - 1 ensures script[i] != WriteFault {
      if i > 0 {
        assert script[i] == tail[i - 1];
      }
    }
  }

  lemma {:induction false} WriteStopsAt(k: Sink, data: seq<Byte>, done: nat)
    requires done <= |data|
    ensures WriteStopped(k.script, WriteFrom(k, data, done).rest.script, WriteFrom(k, data, done).code)
    decreases |k.script|
  {
    if done < |data| && k.script != [] && k.script[0] != WriteFault {
      var next, at := NextWrite(k, data, done);
      WriteStopsAt(next, data, at);
      WriteGoesOn(k.script, WriteFrom(next, data, at).rest.script, WriteFrom(next, data, at).code);
    }
  }

  lemma NextWrite(k: Sink, data: seq<Byte>, done: nat) returns (next: Sink, at: nat)
    requires done < |data| && k.script != [] && k.script[0] != WriteFault
    ensures at <= |data| && next.script == k.script[1..]
    ensures WriteFrom(k, data, done) == WriteFrom(next, data, at)
  {
    match k.script[0]
    case WriteInterrupted => next, at := k.(script := k.script[1..]), done;
    case Accept(n) =>
      var r := Min(n, |data| - done);
      next, at := Sink(k.wire + data[done..done + r], k.script[1..]), done + r;
  }
}
