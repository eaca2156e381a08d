/**
 The Rust JNI encoder (rust/src/lame/encoder.rs): `createEncoder`,
 `writeInternal`, `flush` and `destroyEncoder`, which keep the boxed
 `LameEncoder` struct's address in the Java object's `lame` field.

 Unlike the C encoder it does not validate the channel count, it picks the
 stereo mode the other way round, and it reports a negative flush result only
 through the failure to allocate a negative-length array. A Rust panic inside
 these `extern "C"` functions (a division by zero, an impossible allocation,
 a slice past the buffer) aborts the process; the model returns `Aborted` for it.
 */
module RustEncoder {
  import opened JavaLang
  import opened LameApi

  const TWO_64: int := 0x1_0000_0000_0000_0000

  /** The boxed `LameEncoder` struct, without its LAME handle. */
  datatype Encoder = Encoder(channels: int32, sampleRate: int32, bitRate: int32, quality: int32)

  /** The live structs by address and everything observable done so far. */
  datatype Native = Native(heap: map<int64, Encoder>, trace: seq<Event>)

  /** A JNI call: it returns (a value and possibly a pending Java exception) or aborts. */
  datatype Call<+T> =
    | Returned(native: Native, value: T, pending: Option<Exception>)
    | Aborted

  /** The mode `createEncoder` chooses: JOINT_STEREO for one channel, MONO otherwise. */
  function Mode(channels: int32): int32
  {
    if channels == 1 then JOINT_STEREO else MONO
  }

  /** `createEncoder`: configures LAME with the arguments as given; a negative
      `lame_init_params` reply closes the handle, throws and returns 0. */
  function CreateEncoder(n: Native, channels: int32, sampleRate: int32, bitRate: int32, quality: int32,
                         initParams: int32, address: int64): (r: Call<int64>)
    requires address != 0 && address !in n.heap
    ensures r.Returned?
    ensures r.pending.None? <==> initParams >= 0
    ensures r.pending.Some? ==> r.value == 0 && r.native.heap == n.heap && r.pending.value.IOException?
    ensures r.pending.None? ==> r.value == address && r.native.heap == n.heap[address := Encoder(channels, sampleRate, bitRate, quality)]
    ensures |r.native.trace| > |n.trace| && r.native.trace[..|n.trace|] == n.trace
    ensures OpenHandles(r.native.trace[|n.trace|..]) == (if r.pending.None? then 1 else 0)
    ensures ModeSet(r.native.trace[|n.trace|..]) == Some(if channels == 1 then JOINT_STEREO else MONO)
  {
    var init := InitEvents(channels, sampleRate, bitRate, Mode(channels), quality);
    InitEventsFacts(channels, sampleRate, bitRate, Mode(channels), quality);
    if initParams < 0 then
      var t := n.trace + (init + [LameClose]);
      assert t[|n.trace|..] == init + [LameClose];
      Returned(Native(n.heap, t), 0, Some(IOException("Failed to initialize LAME: ")))
    else
      var t := n.trace + init;
      assert t[|n.trace|..] == init;
      Returned(Native(n.heap[address := Encoder(channels, sampleRate, bitRate, quality)], t), address, None)
  }

  /** `channels as usize`: a negative i32 becomes a huge usize. */
  function AsUsize(x: int32): nat
  {
    if x >= 0 then x else x + TWO_64
  }

  /** `estimate_mp3_buffer_size`: the ceiling of 1.25 * n + 7200, as a usize. */
  function EstimateMp3BufferSize(n: int32): (r: nat)
    requires n >= 0
    ensures 4 * (r - 7200) >= 5 * n && 4 * (r - 7200) < 5 * n + 4
  {
    LameApi.Estimate(n)
  }

  lemma ModOfLarger(a: nat, b: nat)
    requires a < b
    ensures a % b == a
  {
  }

  /** The length of the output buffer `writeInternal` allocates. */
  function BufferSize(length: nat, channels: int32): nat
    requires channels > 0
  {
    LameApi.Estimate(length) * channels
  }

  /** The LAME call `writeInternal` makes for a positive channel count: the buffer
      length is passed as an i32, the sample count per channel. */
  function EncodeCall(length: int32, channels: int32): Event
    requires length >= 0 && channels > 0
  {
    var size := Wrap32(BufferSize(length, channels));
    if channels == 1 then EncodeBuffer(length, size)
    else EncodeBufferInterleaved(length / channels, size)
  }

  /** `writeInternal`: address 0 throws "Encoder is closed"; a length that is not a
      multiple of the channel count (as a usize) throws an IOException before anything
      is encoded; LAME then gets a buffer of `estimate(length) * channels` bytes, told
      to it as an i32, and the per-channel sample count; a negative result throws,
      and otherwise the first `result` bytes of the buffer are returned. */
  function WriteInternal(n: Native, field: int64, input: seq<int16>, reply: LameReply): (r: Call<Option<seq<int8>>>)
    requires field != 0 ==> field in n.heap
    requires |input| <= INT_MAX
    ensures r.Returned? ==> r.native.heap == n.heap && (r.value.Some? <==> r.pending.None?)
    ensures field == 0 ==> r == Returned(n, None, Some(IllegalStateException("Encoder is closed")))
    ensures r.Aborted? ==> field != 0 && (n.heap[field].channels <= 0 || reply.result > LameApi.Estimate(|input|) * n.heap[field].channels)
    ensures field != 0 && n.heap[field].channels == 0 ==> r.Aborted?
    ensures field != 0 && n.heap[field].channels < 0 ==>
              r == (if |input| == 0 then Aborted
                    else Returned(n, None, Some(IOException("Input length must be a multiple of the number of channels"))))
    ensures field != 0 && n.heap[field].channels > 0 && |input| % n.heap[field].channels != 0 ==>
              r == Returned(n, None, Some(IOException("Input length must be a multiple of the number of channels")))
  {
    if field == 0 then
      Returned(n, None, Some(IllegalStateException("Encoder is closed")))
    else
      var encoder := n.heap[field];
      var length: int32 := |input|;
      if encoder.channels == 0 then
        Aborted
      else
        var channels := AsUsize(encoder.channels);
        assert encoder.channels < 0 ==> length % channels == length by {
          if encoder.channels < 0 { ModOfLarger(length, channels); }
        }
        if length % channels != 0 then
          Returned(n, None, Some(IOException("Input length must be a multiple of the number of channels")))
        else if encoder.channels < 0 then
          Aborted
        else
          var size := BufferSize(length, encoder.channels);
          var native := Native(n.heap, n.trace + [EncodeCall(length, encoder.channels)]);
          if reply.result < 0 then
            Returned(native, None, Some(IOException("Failed to encode samples: ")))
          else if reply.result > size then
            Aborted
          else
            Returned(native, Some(Take(reply.output, reply.result)), None)
  }

  /** For a positive channel count dividing the length, `writeInternal` makes exactly
      one LAME call — the mono entry point for one channel, the interleaved one
      otherwise — with the per-channel sample count and the buffer size
      `estimate(length) * channels` truncated to an i32; it aborts exactly when LAME
      reports more bytes than the buffer holds, throws for a negative result, and
      otherwise returns the first `result` bytes of the buffer. */
  lemma WriteInternalEncodes(n: Native, field: int64, input: seq<int16>, reply: LameReply)
    requires field != 0 && field in n.heap
    requires |input| <= INT_MAX
    requires n.heap[field].channels > 0 && |input| % n.heap[field].channels == 0
    ensures var r := WriteInternal(n, field, input, reply);
            var ch := n.heap[field].channels;
            var size := LameApi.Estimate(|input|) * ch;
            && (r.Aborted? <==> reply.result > size)
            && (r.Returned? ==>
                  && |r.native.trace| == |n.trace| + 1 && r.native.trace[..|n.trace|] == n.trace
                  && var call := r.native.trace[|n.trace|];
                  && (call.EncodeBuffer? <==> ch == 1) && (call.EncodeBufferInterleaved? <==> ch != 1)
                  && call.numSamples * ch == |input|
                  && call.bufferSize == Wrap32(size)
                  && (reply.result < 0 <==> r.pending == Some(IOException("Failed to encode samples: ")))
                  && (reply.result >= 0 ==> r.value == Some(Take(reply.output, reply.result))))
  {
    var ch := n.heap[field].channels;
    var length := |input|;
    assert AsUsize(ch) == ch;
    assert (length / ch) * ch == length;
  }

  /** `flush`: address 0 throws "Encoder is closed"; otherwise one `lame_encode_flush`
      into a 7200-byte buffer. The result is not checked: a negative one makes the
      array allocation fail, which throws an IOException. */
  function Flush(n: Native, field: int64, reply: LameReply): (r: Call<Option<seq<int8>>>)
    requires field != 0 ==> field in n.heap
    ensures r.Aborted? <==> field != 0 && reply.result > FLUSH_BUFFER_SIZE
    ensures r.Returned? ==> r.native.heap == n.heap && (r.value.Some? <==> r.pending.None?)
    ensures field == 0 ==> r == Returned(n, None, Some(IllegalStateException("Encoder is closed")))
    ensures field != 0 && r.Returned? ==>
              && r.native.trace == n.trace + [EncodeFlush(FLUSH_BUFFER_SIZE)]
              && (reply.result < 0 <==> r.pending == Some(IOException("Failed to create byte array: ")))
              && (reply.result >= 0 ==> r.value == Some(Take(reply.output, reply.result)))
  {
    if field == 0 then
      Returned(n, None, Some(IllegalStateException("Encoder is closed")))
    else
      var native := Native(n.heap, n.trace + [EncodeFlush(FLUSH_BUFFER_SIZE)]);
      if reply.result < 0 then
        Returned(native, None, Some(IOException("Failed to create byte array: ")))
      else if reply.result > FLUSH_BUFFER_SIZE then
        Aborted
      else
        Returned(native, Some(Take(reply.output, reply.result)), None)
  }

  /** `destroyEncoder`: a no-op on address 0; otherwise closes the LAME handle, frees
      the struct, and sets the field to 0. Returns the native state and the field. */
  function DestroyEncoder(n: Native, field: int64): (r: (Native, int64))
    requires 0 !in n.heap && (field != 0 ==> field in n.heap)
    ensures r.1 == 0 && 0 !in r.0.heap
    ensures field == 0 ==> r.0 == n
    ensures field != 0 ==> field !in r.0.heap && r.0.trace == n.trace + [LameClose] && OpenHandles(r.0.trace) == OpenHandles(n.trace) - 1
    ensures forall p :: p in r.0.heap <==> p in n.heap && p != field
  {
    if field == 0 then (n, 0)
    else
      OpenHandlesConcat(n.trace, [LameClose]);
      (Native(n.heap - {field}, n.trace + [LameClose]), 0)
  }

  /** Because destroying clears the field, destroying twice is the same as once. */
  lemma DestroyTwice(n: Native, field: int64)
    requires 0 !in n.heap && (field != 0 ==> field in n.heap)
    ensures var (n1, f1) := DestroyEncoder(n, field);
            DestroyEncoder(n1, f1) == (n1, f1)
  {
  }

  /** The Rust and the C encoders configure LAME with opposite modes for the same
      channel count (1 or 2). */
  lemma ModeOppositeToC(channels: int32)
    requires channels == 1 || channels == 2
    ensures Mode(channels) != (if channels == 1 then MONO else JOINT_STEREO)
  {
  }
}
