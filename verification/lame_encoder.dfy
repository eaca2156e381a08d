/**
 `LameEncoder`, the JNA encoder: it drives LAME directly from Java. Argument
 checks are Java `assert` statements, so they run only with assertions enabled
 (`ea`); the int arithmetic of the buffer size is Java's (a saturating cast from
 double, then a wrapping multiplication); the output stream's bounds check is
 what catches a flush result outside the flush buffer.
 */
module LameEncoder {
  import opened JavaLang
  import opened LameApi

  /** The object: its channel count and everything observable done so far (the
      LAME handle is implicit in the trace). */
  datatype LameEncoder = LameEncoder(channels: int32, trace: seq<Event>)

  /** The mode chosen for a channel count. */
  function Mode(channels: int32): int32
  {
    if channels == 1 then MONO else JOINT_STEREO
  }

  /** The outcome of the constructor: the trace afterwards and the object, if constructed. */
  datatype Constructed = Constructed(trace: seq<Event>, encoder: Outcome<LameEncoder>)

  /** Whether the constructor's two asserts let the arguments through. */
  predicate ArgumentsPass(channels: int32, quality: int32, ea: bool)
  {
    !ea || ((channels == 1 || channels == 2) && 0 <= quality <= 9)
  }

  /** `new LameEncoder(channels, sampleRate, bitRate, quality, outputStream)`: with
      assertions enabled a bad channel count or quality fails before LAME is touched;
      otherwise LAME is initialised and configured, and a negative `lame_init_params`
      reply throws "Failed to initialize LAME" — without closing the handle, which
      stays open. */
  function New(trace: seq<Event>, channels: int32, sampleRate: int32, bitRate: int32, quality: int32,
               initParams: int32, ea: bool): (r: Constructed)
    ensures !ArgumentsPass(channels, quality, ea) ==> r == Constructed(trace, Thrown(AssertionError))
    ensures ArgumentsPass(channels, quality, ea) ==>
              && |r.trace| > |trace| && r.trace[..|trace|] == trace
              && OpenHandles(r.trace[|trace|..]) == 1
              && ModeSet(r.trace[|trace|..]) == Some(if channels == 1 then MONO else JOINT_STEREO)
              && r.trace == trace + InitEvents(channels, sampleRate, bitRate, Mode(channels), quality)
              && (r.encoder.Ok? <==> initParams >= 0)
              && (r.encoder.Thrown? ==> r.encoder.exception == IOException("Failed to initialize LAME"))
              && (r.encoder.Ok? ==> r.encoder.value == LameEncoder(channels, r.trace))
  {
    if !ArgumentsPass(channels, quality, ea) then
      Constructed(trace, Thrown(AssertionError))
    else
      var init := InitEvents(channels, sampleRate, bitRate, Mode(channels), quality);
      InitEventsFacts(channels, sampleRate, bitRate, Mode(channels), quality);
      var t := trace + init;
      assert t[|trace|..] == init;
      if initParams < 0 then Constructed(t, Thrown(IOException("Failed to initialize LAME")))
      else Constructed(t, Ok(LameEncoder(channels, t)))
  }

  /** `estimateMp3BufferSize(n)` for an array length n: the ceiling of 1.25 * n + 7200
      computed in double, then cast with `(int)`, which saturates at Integer.MAX_VALUE. */
  function EstimateMp3BufferSize(n: int32): (r: int32)
    requires n >= 0
    ensures 4 * (INT_MAX - 7200) >= 5 * n ==> 4 * (r - 7200) >= 5 * n && 4 * (r - 7200) < 5 * n + 4
    ensures 4 * (INT_MAX - 7200) < 5 * n ==> r == INT_MAX
  {
    Min(LameApi.Estimate(n), INT_MAX)
  }

  /** The length of the array `write` allocates, in Java int arithmetic. */
  function BufferLength(length: int32, channels: int32): int32
    requires length >= 0
  {
    Wrap32(EstimateMp3BufferSize(length) * channels)
  }

  /** `write(samples)`. With assertions enabled, a length that is not a multiple of the
      channel count fails first. The buffer length is `estimate(length) * channels`
      (which for a large stereo array wraps negative and fails to allocate). LAME gets
      the per-channel sample count, through the mono entry point for one channel and
      the interleaved one otherwise. A negative result throws; otherwise the first
      `result` bytes of the buffer go to the stream, and a result beyond the buffer is
      refused by the stream's bounds check. */
  function Write(e: LameEncoder, samples: seq<int16>, reply: LameReply, ea: bool): (r: Step<LameEncoder>)
    requires |samples| <= INT_MAX
    ensures r.state.channels == e.channels
    ensures |r.state.trace| >= |e.trace| && r.state.trace[..|e.trace|] == e.trace
    ensures ea && e.channels != 0 && JavaRem(|samples|, e.channels) != 0 ==> r == Step(e, Some(AssertionError))
    ensures r.thrown.None? ==>
              reply.result >= 0 && Written(r.state.trace) == Written(e.trace) + Take(reply.output, reply.result)
    ensures r.thrown.Some? ==> Written(r.state.trace) == Written(e.trace)
  {
    var length: int32 := |samples|;
    if ea && e.channels == 0 then
      Step(e, Some(ArithmeticException("/ by zero")))
    else if ea && JavaRem(length, e.channels) != 0 then
      Step(e, Some(AssertionError))
    else
      var size := BufferLength(length, e.channels);
      if size < 0 then
        Step(e, Some(NegativeArraySizeException))
      else if e.channels == 0 then
        Step(e, Some(ArithmeticException("/ by zero")))
      else
        var call :=
          if e.channels == 1 then EncodeBuffer(length, size)
          else EncodeBufferInterleaved(JavaDiv(length, e.channels), size);
        Encoded(e, call, size, reply)
  }

  /** The rest of `write` once LAME has been called: a negative result throws, a result
      beyond the buffer fails the stream's bounds check, and otherwise the first
      `result` bytes go to the stream. */
  function Encoded(e: LameEncoder, call: Event, size: int32, reply: LameReply): (r: Step<LameEncoder>)
    requires !call.SinkWrite?
    ensures r.state.channels == e.channels
    ensures |r.state.trace| > |e.trace| && r.state.trace[..|e.trace| + 1] == e.trace + [call]
    ensures r.thrown.None? <==> 0 <= reply.result <= size
    ensures r.thrown.None? ==> Written(r.state.trace) == Written(e.trace) + Take(reply.output, reply.result)
    ensures r.thrown.Some? ==> Written(r.state.trace) == Written(e.trace)
  {
    var t := e.trace + [call];
    WrittenConcat(e.trace, [call]);
    assert Written([call]) == [];
    if reply.result < 0 then
      Step(LameEncoder(e.channels, t), Some(IOException("Failed to encode samples")))
    else if reply.result > size then
      Step(LameEncoder(e.channels, t), Some(IndexOutOfBoundsException))
    else
      var bytes := Take(reply.output, reply.result);
      WrittenConcat(t, [SinkWrite(bytes)]);
      assert Written([SinkWrite(bytes)]) == bytes;
      assert (t + [SinkWrite(bytes)])[..|e.trace| + 1] == t;
      Step(LameEncoder(e.channels, t + [SinkWrite(bytes)]), None)
  }

  /** For one or two channels and a length that is a multiple of the channel count
      (and small enough that the buffer length does not wrap), `write` makes exactly
      one LAME call: the mono entry point for one channel, the interleaved one for two,
      with the per-channel sample count and a buffer of `estimate(length) * channels`
      bytes, and it succeeds exactly when LAME's result fits that buffer. */
  lemma WriteEncodes(e: LameEncoder, samples: seq<int16>, reply: LameReply, ea: bool)
    requires |samples| <= INT_MAX
    requires e.channels == 1 || e.channels == 2
    requires |samples| % e.channels == 0
    requires LameApi.Estimate(|samples|) * e.channels <= INT_MAX
    ensures var r := Write(e, samples, reply, ea);
            && |r.state.trace| > |e.trace|
            && var call := r.state.trace[|e.trace|];
            && (call.EncodeBuffer? || call.EncodeBufferInterleaved?)
            && (call.EncodeBuffer? <==> e.channels == 1)
            && call.numSamples * e.channels == |samples|
            && call.bufferSize == LameApi.Estimate(|samples|) * e.channels
            && (r.thrown.None? <==> 0 <= reply.result <= call.bufferSize)
  {
    var length := |samples|;
    assert EstimateMp3BufferSize(length) == LameApi.Estimate(length);
    if e.channels == 1 {
      assert BufferLength(length, 1) == LameApi.Estimate(length);
    } else {
      assert BufferLength(length, 2) == LameApi.Estimate(length) * 2;
      assert JavaRem(length, 2) == 0;
      assert JavaDiv(length, 2) * 2 == length;
    }
  }

  /** `close()`: flush into a 7200-byte buffer, write the flushed bytes, close the LAME
      handle, close the stream — in that order. A flush result outside the buffer
      (negative included: there is no check for it) makes the stream's write throw
      IndexOutOfBoundsException, and then neither the handle nor the stream is closed. */
  function Close(e: LameEncoder, reply: LameReply): (r: Step<LameEncoder>)
    ensures r.state.channels == e.channels
    ensures r.thrown.None? <==> 0 <= reply.result <= FLUSH_BUFFER_SIZE
    ensures r.thrown.Some? ==>
              r.thrown == Some(IndexOutOfBoundsException) && r.state.trace == e.trace + [EncodeFlush(FLUSH_BUFFER_SIZE)]
    ensures r.thrown.None? ==>
              r.state.trace == e.trace + [EncodeFlush(FLUSH_BUFFER_SIZE), SinkWrite(Take(reply.output, reply.result)), LameClose, SinkClose]
  {
    var flushed := e.trace + [EncodeFlush(FLUSH_BUFFER_SIZE)];
    if reply.result < 0 || reply.result > FLUSH_BUFFER_SIZE then
      Step(LameEncoder(e.channels, flushed), Some(IndexOutOfBoundsException))
    else
      Step(LameEncoder(e.channels, flushed + [SinkWrite(Take(reply.output, reply.result)), LameClose, SinkClose]), None)
  }

  /** A successful close writes exactly the flushed bytes and releases the handle the
      constructor opened. */
  lemma CloseReleases(e: LameEncoder, reply: LameReply)
    requires 0 <= reply.result <= FLUSH_BUFFER_SIZE
    ensures Written(Close(e, reply).state.trace) == Written(e.trace) + Take(reply.output, reply.result)
    ensures OpenHandles(Close(e, reply).state.trace) == OpenHandles(e.trace) - 1
  {
    var bytes := Take(reply.output, reply.result);
    assert Close(e, reply).state.trace == e.trace + CloseEvents(bytes);
    WrittenConcat(e.trace, CloseEvents(bytes));
    OpenHandlesConcat(e.trace, CloseEvents(bytes));
    CloseEventsFacts(bytes);
  }

  /** With one or two channels, a stereo array long enough that twice its estimate
      exceeds Integer.MAX_VALUE gets a negative buffer length. */
  lemma StereoBufferLengthWraps(length: int32)
    requires length >= 0 && 2 * EstimateMp3BufferSize(length) > INT_MAX
    ensures BufferLength(length, 2) < 0
  {
  }
}
