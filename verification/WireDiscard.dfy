/** Skipping a payload: what mon_discard_payload takes off the stream, when it reports AGAIN
    or the end of the stream besides the codes it documents, and what a retry then does. */
module WireDiscard {
  import opened Bytes
  import opened WireDelivery
  import opened WireFormat
  import opened Words

  // ---------------------------------------------------------------- byte accounting

  lemma DiscardStops(s: Source, length: nat, t: Discarded)
    requires length > 0 && ReadAll(s, Min(length, DISCARD_CHUNK)).code == OK
    requires t == Discard(ReadAll(s, Min(length, DISCARD_CHUNK)).rest, length - Min(length, DISCARD_CHUNK))
    ensures Discard(s, length) == t
    ensures t.code == AGAIN ==> Min(length, DISCARD_CHUNK) == DISCARD_CHUNK
  {
  }

  /** A discard that succeeds skips exactly `length` bytes, and only such a discard does. */
  lemma {:induction false} DiscardAccounting(s: Source, length: nat)
    ensures var r := Discard(s, length);
            && 0 <= Consumed(s, r.rest) <= length && r.rest.pending == s.pending[Consumed(s, r.rest)..]
            && (r.code == OK <==> Consumed(s, r.rest) == length)
    decreases length
  {
    if length > 0 {
      var chunk := Min(length, DISCARD_CHUNK);
      var d := ReadAll(s, chunk);
      ReadTakesPrefix(s, chunk);
      if d.code == OK {
        DiscardAccounting(d.rest, length - chunk);
        var t := Discard(d.rest, length - chunk);
        DiscardStops(s, length, t);
        DropDrop(s.pending, d.rest.pending, t.rest.pending, chunk, Consumed(d.rest, t.rest));
      }
    }
  }

  /** A discard that reports AGAIN has skipped a whole number of 256-byte chunks. */
  lemma {:induction false} DiscardStallsBetweenChunks(s: Source, length: nat)
    requires Discard(s, length).code == AGAIN
    ensures Consumed(s, Discard(s, length).rest) % 256 == 0
    decreases length
  {
    if length > 0 {
      var chunk := Min(length, DISCARD_CHUNK);
      var d := ReadAll(s, chunk);
      ReadTakesPrefix(s, chunk);
      if d.code == OK {
        var t := Discard(d.rest, length - chunk);
        DiscardStops(s, length, t);
        DiscardStallsBetweenChunks(d.rest, length - chunk);
        assert Consumed(s, t.rest) == DISCARD_CHUNK + Consumed(d.rest, t.rest);
      }
    }
  }

  // ---------------------------------------------------------------- told from the script

  /** The script blocks right before the first byte of one of the chunks. */
  predicate StallsAtChunk(script: seq<ReadEvent>, length: nat)
    decreases length
  {
    length > 0 &&
    (BlocksFirst(script)
     || StallsAtChunk(After(script, Min(length, 256)), length - Min(length, 256)))
  }

  lemma {:induction false} NothingStalls(length: nat)
    ensures !StallsAtChunk([], length)
    decreases length
  {
    if length > 0 {
      NothingStalls(length - Min(length, DISCARD_CHUNK));
    }
  }

  /** Over every connection, a discard of bytes that are all there reports AGAIN, which it
      does not document, exactly when the script blocks right before a chunk's first byte. */
  lemma {:induction false} DiscardStallsIff(s: Source, length: nat)
    requires length <= |s.pending|
    ensures Discard(s, length).code == AGAIN <==> StallsAtChunk(s.script, length)
    decreases length
  {
    if length > 0 {
      var chunk := Min(length, DISCARD_CHUNK);
      var d := ReadAll(s, chunk);
      ReadFollows(s, chunk, []);
      ReadTakesPrefix(s, chunk);
      if d.code == OK {
        DiscardStops(s, length, Discard(d.rest, length - chunk));
        DiscardStallsIff(d.rest, length - chunk);
      } else if d.code != AGAIN {
        NothingStalls(length - chunk);
      }
    }
  }

  /** Over a connection that does not fail and brings enough, a discard ends with OK or
      AGAIN; so it succeeds exactly when no chunk stalls. */
  lemma {:induction false} DiscardCompletes(s: Source, length: nat)
    requires length <= |s.pending| && Healthy(s.script) && length <= Chunks(s.script)
    ensures Discard(s, length).code == OK || Discard(s, length).code == AGAIN
    decreases length
  {
    if length > 0 {
      var chunk := Min(length, DISCARD_CHUNK);
      var d := ReadAll(s, chunk);
      ReadCompletes(s, chunk, []);
      ReadTakesPrefix(s, chunk);
      if d.code == OK {
        DiscardStops(s, length, Discard(d.rest, length - chunk));
        DiscardCompletes(d.rest, length - chunk);
      }
    }
  }

  lemma DiscardSucceedsIff(s: Source, length: nat)
    requires length <= |s.pending| && Healthy(s.script) && length <= Chunks(s.script)
    ensures var r := Discard(s, length);
            && (r.code == OK <==> !StallsAtChunk(s.script, length))
            && (r.code != OK ==> r.code == AGAIN)
            && (r.code == OK ==> r.rest.pending == s.pending[length..])
  {
    DiscardCompletes(s, length);
    DiscardStallsIff(s, length);
    DiscardAccounting(s, length);
  }

  /** The other code it does not document: whatever is to be skipped, a peer that closes
      first ends the discard with EOF. */
  lemma DiscardMayEnd(pending: seq<Byte>, length: nat)
    requires length > 0
    ensures Discard(Source(pending, [Closed]), length).code == EOF
  {
    assert ReadAll(Source(pending, [Closed]), Min(length, DISCARD_CHUNK)).code == EOF;
  }

  // ---------------------------------------------------------------- trying again

  ghost predicate SafeToDiscardAgain(pending: seq<Byte>, length: nat, script: seq<ReadEvent>) {
    var r := Discard(Source(pending, script), length);
    r.code == AGAIN ==> r.rest.pending == pending
  }

  /** Calling it again with the same length after AGAIN is safe, whatever the connection does,
      if and only if the length is a single chunk's at most; otherwise what the first call
      skipped is skipped a second time. */
  lemma DiscardRetryIsSafeIff(pending: seq<Byte>, length: nat)
    requires length <= |pending|
    ensures (forall script :: SafeToDiscardAgain(pending, length, script)) <==> length <= 256
  {
    if length <= DISCARD_CHUNK {
      forall script ensures SafeToDiscardAgain(pending, length, script) {
        if Discard(Source(pending, script), length).code == AGAIN {
          OneChunkStallsAtOnce(Source(pending, script), length);
        }
      }
    } else {
      var script := [Chunk(DISCARD_CHUNK), WouldBlock];
      SecondChunkStalls(pending, length, script);
      assert !SafeToDiscardAgain(pending, length, script);
    }
  }

  lemma OneChunkStallsAtOnce(s: Source, length: nat)
    requires length <= DISCARD_CHUNK && Discard(s, length).code == AGAIN
    ensures Discard(s, length).rest.pending == s.pending
  {
    DiscardAccounting(s, length);
    DiscardStallsBetweenChunks(s, length);
  }

  lemma SecondChunkStalls(pending: seq<Byte>, length: nat, script: seq<ReadEvent>)
    requires DISCARD_CHUNK < length <= |pending| && script == [Chunk(DISCARD_CHUNK), WouldBlock]
    ensures var r := Discard(Source(pending, script), length);
            r.code == AGAIN && r.rest.pending == pending[DISCARD_CHUNK..]
  {
    var s := Source(pending, script);
    ReadInOneChunk(s, DISCARD_CHUNK);
    var rest := ReadAll(s, DISCARD_CHUNK).rest;
    assert rest.script == [WouldBlock];
    assert Discard(rest, length - DISCARD_CHUNK).code == AGAIN;
  }

  // ---------------------------------------------------------------- oversize messages

  /** An oversize message can be skipped: after SIZE, discarding the announced length leaves
      the stream at the next frame. */
  lemma OversizeCanBeSkipped(s: Source, m: Message, rest: seq<Byte>, bufSize: nat)
    requires m.Valid() && !Fits(m, bufSize) && s.pending == Frame(m) + rest
    requires RecvMsg(s, bufSize).header.Some?
    ensures var r := RecvMsg(s, bufSize);
            && r.code == SIZE && r.header.value.length == |m.payload|
            && (Discard(r.rest, |m.payload|).code == OK ==> Discard(r.rest, |m.payload|).rest.pending == rest)
  {
    HeaderArrives(s, m, rest);
    HeaderAccounting(s);
    var r := RecvMsg(s, bufSize);
    DiscardAccounting(r.rest, |m.payload|);
  }

  /** Over a connection that does not fail and brings enough, a call at the boundary of an
      oversize message whose header is not stalled says SIZE, and the discard that follows
      reaches the next frame if and only if the script behind the header blocks at the start
      of no chunk. */
  lemma OversizeIsSkippedIff(s: Source, m: Message, rest: seq<Byte>, bufSize: nat)
    requires m.Valid() && !Fits(m, bufSize) && s.pending == Frame(m) + rest
    requires Healthy(s.script) && |Frame(m)| <= Chunks(s.script) && !BlocksFirst(s.script)
    ensures var r := RecvMsg(s, bufSize);
            var d := Discard(r.rest, |m.payload|);
            && r.code == SIZE
            && (d.code == OK && d.rest.pending == rest
                <==> !StallsAtChunk(After(s.script, HEADER_SIZE), |m.payload|))
  {
    var r := RecvMsg(s, bufSize);
    OversizeArrives(s, m, rest, bufSize, r);
    DiscardSucceedsIff(r.rest, |m.payload|);
    assert (m.payload + rest)[|m.payload|..] == rest;
  }

  lemma OversizeArrives(s: Source, m: Message, rest: seq<Byte>, bufSize: nat, r: MessageReceived)
    requires m.Valid() && !Fits(m, bufSize) && s.pending == Frame(m) + rest && r == RecvMsg(s, bufSize)
    requires Healthy(s.script) && |Frame(m)| <= Chunks(s.script) && !BlocksFirst(s.script)
    ensures r.code == SIZE && r.rest.pending == m.payload + rest && r.rest.script == After(s.script, HEADER_SIZE)
    ensures Healthy(r.rest.script) && |m.payload| <= Chunks(r.rest.script)
  {
    ReadFollows(s, HEADER_SIZE, []);
    ReadCompletes(s, HEADER_SIZE, []);
    HeaderArrives(s, m, rest);
    HeaderAccounting(s);
  }
}
