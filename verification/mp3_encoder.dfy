/**
 `Mp3Encoder`, the Java class over the C JNI encoder: it keeps the native address
 (0 once closed) and the output stream, forwards each encoded chunk to the
 stream, and on close flushes, writes the flushed bytes, destroys the native
 encoder, clears the address and closes the stream, in that order.

 The output stream is modelled as accepting every write and close; its writes
 and its close are events of the shared trace.
 */
module Mp3Encoder {
  import opened JavaLang
  import opened LameApi
  import NativeEncoder

  datatype Mp3Encoder = Mp3Encoder(pointer: int64, native: NativeEncoder.Native, sinkClosed: bool)

  /** The object invariant: the native heap is as `createEncoder0` leaves it and a
      non-zero address names a live encoder. */
  predicate Valid(e: Mp3Encoder)
  {
    NativeEncoder.ValidHeap(e.native.heap) && (e.pointer != 0 ==> e.pointer in e.native.heap)
  }

  /** `isClosed()`. */
  predicate IsClosed(e: Mp3Encoder)
  {
    e.pointer == 0
  }

  /** The channel count of an open encoder. */
  function Channels(e: Mp3Encoder): int32
    requires Valid(e) && !IsClosed(e)
  {
    e.native.heap[e.pointer].channels
  }

  /** What `write` may be given, and what LAME may answer: an array whose encoding
      buffer size fits the C int32 arithmetic whenever the native layer gets as far as
      computing it, and a reply no longer than that buffer. */
  predicate Writable(e: Mp3Encoder, input: seq<int16>, reply: LameReply)
  {
    && Valid(e)
    && |input| <= INT_MAX
    && (!IsClosed(e) && |input| % Channels(e) == 0 ==>
          && NativeEncoder.BufferSize(|input|, Channels(e)) <= INT_MAX
          && reply.result <= NativeEncoder.BufferSize(|input|, Channels(e)))
  }

  /** The outcome of the constructor: the native state afterwards and the object, if
      `createEncoder0` returned without a pending exception. */
  datatype Opened = Opened(native: NativeEncoder.Native, encoder: Outcome<Mp3Encoder>)

  /** `new Mp3Encoder(channels, sampleRate, bitRate, quality, outputStream)`. */
  function New(n: NativeEncoder.Native, channels: int32, sampleRate: int32, bitRate: int32, quality: int32,
               lameOk: bool, initParams: int32, address: int64): (r: Opened)
    requires NativeEncoder.ValidHeap(n.heap) && address != 0 && address !in n.heap
    ensures r.encoder.Ok? <==> (channels == 1 || channels == 2) && lameOk && initParams >= 0
    ensures r.encoder.Ok? ==>
              var e := r.encoder.value;
              Valid(e) && !IsClosed(e) && !e.sinkClosed && e.native == r.native && Channels(e) == channels
    ensures r.encoder.Thrown? ==> r.native.heap == n.heap && Written(r.native.trace) == Written(n.trace)
  {
    var c := NativeEncoder.CreateEncoder0(n, channels, sampleRate, bitRate, quality, lameOk, initParams, address);
    if c.pending.Some? then
      WrittenUnchanged(n.trace, c.native.trace);
      Opened(c.native, Thrown(c.pending.value))
    else
      Opened(c.native, Ok(Mp3Encoder(c.value, c.native, false)))
  }

  /** A native call that writes nothing to the stream leaves the written bytes alone. */
  lemma WrittenUnchanged(before: seq<Event>, after: seq<Event>)
    requires |after| >= |before| && after[..|before|] == before
    requires forall k :: |before| <= k < |after| ==> !after[k].SinkWrite?
    ensures Written(after) == Written(before)
  {
    assert after == before + after[|before|..];
    WrittenConcat(before, after[|before|..]);
    WrittenOfOthers(after[|before|..]);
  }

  lemma {:induction false} WrittenOfOthers(trace: seq<Event>)
    requires forall k :: 0 <= k < |trace| ==> !trace[k].SinkWrite?
    ensures Written(trace) == []
    decreases |trace|
  {
    if |trace| > 0 {
      WrittenOfOthers(trace[1..]);
    }
  }

  /** `write(input)`: the bytes `writeInternal0` returns go to the stream, all of them
      and nothing else; when the native call throws, nothing is written. The address
      and the stream's state do not change. */
  function Write(e: Mp3Encoder, input: seq<int16>, reply: LameReply): (r: Step<Mp3Encoder>)
    requires Writable(e, input, reply)
    ensures Valid(r.state) && r.state.pointer == e.pointer && r.state.sinkClosed == e.sinkClosed
    ensures r.state.native.heap == e.native.heap
    ensures r.thrown.None? ==>
              reply.result >= 0 && Written(r.state.native.trace) == Written(e.native.trace) + Take(reply.output, reply.result)
    ensures r.thrown.Some? ==> Written(r.state.native.trace) == Written(e.native.trace)
    ensures IsClosed(e) ==> r == Step(e, Some(RuntimeException("Encoder is closed")))
    ensures !IsClosed(e) ==> (r.thrown.None? <==> |input| % Channels(e) == 0 && reply.result >= 0)
  {
    var c := NativeEncoder.WriteInternal0(e.native, e.pointer, input, reply);
    if c.pending.Some? then
      WrittenUnchanged(e.native.trace, c.native.trace);
      Step(Mp3Encoder(e.pointer, c.native, e.sinkClosed), c.pending)
    else
      var bytes := c.value.value;
      var trace := c.native.trace + [SinkWrite(bytes)];
      WrittenUnchanged(e.native.trace, c.native.trace);
      WrittenConcat(c.native.trace, [SinkWrite(bytes)]);
      assert Written([SinkWrite(bytes)]) == bytes;
      Step(Mp3Encoder(e.pointer, NativeEncoder.Native(c.native.heap, trace), e.sinkClosed), None)
  }

  /** `close()`: flush, write the flushed bytes, destroy the native encoder, set the
      address to 0, close the stream — in that order. A closed encoder, or a failing
      flush, throws before anything else happens. */
  function Close(e: Mp3Encoder, reply: LameReply): (r: Step<Mp3Encoder>)
    requires Valid(e) && (!IsClosed(e) ==> reply.result <= FLUSH_BUFFER_SIZE)
    ensures Valid(r.state)
    ensures IsClosed(e) ==> r == Step(e, Some(RuntimeException("Encoder is closed")))
    ensures !IsClosed(e) && reply.result < 0 ==>
              r.thrown == Some(IOException("Failed to flush encoder")) &&
              r.state == e.(native := NativeEncoder.Native(e.native.heap, e.native.trace + [EncodeFlush(FLUSH_BUFFER_SIZE)]))
    ensures !IsClosed(e) && reply.result >= 0 ==>
              && r.thrown.None?
              && IsClosed(r.state) && r.state.sinkClosed
              && e.pointer !in r.state.native.heap
              && r.state.native.trace ==
                   e.native.trace + [EncodeFlush(FLUSH_BUFFER_SIZE), SinkWrite(Take(reply.output, reply.result)), LameClose, SinkClose]
  {
    var f := NativeEncoder.Flush0(e.native, e.pointer, reply);
    if f.pending.Some? then
      Step(e.(native := f.native), f.pending)
    else
      var written := NativeEncoder.Native(f.native.heap, f.native.trace + [SinkWrite(f.value.value)]);
      var destroyed := NativeEncoder.DestroyEncoder0(written, e.pointer);
      Step(Mp3Encoder(0, NativeEncoder.Native(destroyed.heap, destroyed.trace + [SinkClose]), true), None)
  }

  /** After a successful close the encoder reports closed, and both `write` and a
      second `close` reach the native layer with address 0 and fail with "Encoder is
      closed", changing nothing. */
  lemma UseAfterClose(e: Mp3Encoder, flush: LameReply, input: seq<int16>, reply: LameReply, flushAgain: LameReply)
    requires Valid(e) && !IsClosed(e) && 0 <= flush.result <= FLUSH_BUFFER_SIZE
    requires |input| <= INT_MAX
    ensures var closed := Close(e, flush).state;
            && IsClosed(closed)
            && Write(closed, input, reply) == Step(closed, Some(RuntimeException("Encoder is closed")))
            && Close(closed, flushAgain) == Step(closed, Some(RuntimeException("Encoder is closed")))
  {
  }

  /** Every array of a sequence may be given to `write`, answered by the matching reply. */
  predicate AllWritable(e: Mp3Encoder, inputs: seq<seq<int16>>, replies: seq<LameReply>)
    requires |inputs| == |replies|
    decreases |inputs|
  {
    |inputs| == 0 || (Writable(e, inputs[0], replies[0]) && AllWritable(e, inputs[1..], replies[1..]))
  }

  /** Writing keeps the address and the heap, so what could be written still can. */
  lemma {:induction false} WritableKept(e: Mp3Encoder, e': Mp3Encoder, inputs: seq<seq<int16>>, replies: seq<LameReply>)
    requires Valid(e') && e'.pointer == e.pointer && e'.native.heap == e.native.heap
    requires |inputs| == |replies| && AllWritable(e, inputs, replies)
    ensures AllWritable(e', inputs, replies)
    decreases |inputs|
  {
    if |inputs| > 0 {
      WritableKept(e, e', inputs[1..], replies[1..]);
    }
  }

  /** The bytes a sequence of successful LAME replies hands back, in order. */
  function Produced(replies: seq<LameReply>): seq<int8>
  {
    if |replies| == 0 then []
    else Take(replies[0].output, if replies[0].result < 0 then 0 else replies[0].result) + Produced(replies[1..])
  }

  /** Writing a sequence of arrays, stopping at the first exception. */
  function WriteEach(e: Mp3Encoder, inputs: seq<seq<int16>>, replies: seq<LameReply>): (r: Step<Mp3Encoder>)
    requires Valid(e) && |inputs| == |replies|
    requires AllWritable(e, inputs, replies)
    ensures Valid(r.state) && r.state.pointer == e.pointer && r.state.native.heap == e.native.heap
    ensures r.state.sinkClosed == e.sinkClosed
    decreases |inputs|
  {
    if |inputs| == 0 then Step(e, None)
    else
      var w := Write(e, inputs[0], replies[0]);
      if w.thrown.Some? then w
      else
        WritableKept(e, w.state, inputs[1..], replies[1..]);
        WriteEach(w.state, inputs[1..], replies[1..])
  }

  /** An encoding session that writes every array and then closes puts on the stream
      exactly the encoded bytes of each write, in order, followed by the flushed
      bytes, and leaves the encoder closed. */
  lemma {:induction false} SessionForwardsEverything(e: Mp3Encoder, inputs: seq<seq<int16>>, replies: seq<LameReply>, flush: LameReply)
    requires Valid(e) && |inputs| == |replies|
    requires AllWritable(e, inputs, replies)
    requires !IsClosed(e) && WriteEach(e, inputs, replies).thrown.None? && 0 <= flush.result <= FLUSH_BUFFER_SIZE
    ensures var closed := Close(WriteEach(e, inputs, replies).state, flush);
            && closed.thrown.None? && IsClosed(closed.state) && closed.state.sinkClosed
            && e.pointer !in closed.state.native.heap
            && Written(closed.state.native.trace) ==
                 Written(e.native.trace) + Produced(replies) + Take(flush.output, flush.result)
    decreases |inputs|
  {
    var after := WriteEach(e, inputs, replies).state;
    WriteEachForwards(e, inputs, replies);
    var tail := [EncodeFlush(FLUSH_BUFFER_SIZE), SinkWrite(Take(flush.output, flush.result)), LameClose, SinkClose];
    WrittenConcat(after.native.trace, tail);
    assert Written(tail) == Take(flush.output, flush.result) by {
      assert tail[1..][1..] == [LameClose, SinkClose];
      WrittenOfOthers([LameClose, SinkClose]);
    }
  }

  lemma {:induction false} WriteEachForwards(e: Mp3Encoder, inputs: seq<seq<int16>>, replies: seq<LameReply>)
    requires Valid(e) && |inputs| == |replies|
    requires AllWritable(e, inputs, replies)
    requires WriteEach(e, inputs, replies).thrown.None?
    ensures Written(WriteEach(e, inputs, replies).state.native.trace) == Written(e.native.trace) + Produced(replies)
    decreases |inputs|
  {
    if |inputs| > 0 {
      var w := Write(e, inputs[0], replies[0]);
      assert w.thrown.None?;
      WritableKept(e, w.state, inputs[1..], replies[1..]);
      WriteEachForwards(w.state, inputs[1..], replies[1..]);
    }
  }
}
