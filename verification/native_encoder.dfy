/**
 The C JNI encoder (native/src/encoder.c): the functions behind `Mp3Encoder`'s
 `createEncoder0`, `writeInternal0`, `flush0` and `destroyEncoder0`.

 The `Encoder` struct lives in a heap indexed by its address (the `long` the Java
 object keeps); address 0 is the closed encoder. The LAME handle belongs to the
 struct, so it is not modelled separately. Every LAME call and every output
 stream operation is appended to one trace, in the order made.
 */
module NativeEncoder {
  import opened JavaLang
  import opened LameApi

  /** The C `Encoder` struct, without its LAME handle. */
  datatype Encoder = Encoder(channels: int32, sampleRate: int32, bitRate: int32, quality: int32)

  /** The live encoders, by address, and everything observable done so far. */
  datatype Native = Native(heap: map<int64, Encoder>, trace: seq<Event>)

  /** What `createEncoder0` establishes for every struct it allocates: 1 or 2 channels. */
  predicate ValidHeap(heap: map<int64, Encoder>)
  {
    0 !in heap && forall p :: p in heap ==> heap[p].channels == 1 || heap[p].channels == 2
  }

  /** A native call: the state afterwards, the C return value, and the Java exception
      left pending (which the Java caller throws as soon as the call returns). */
  datatype Call<+T> = Call(native: Native, value: T, pending: Option<Exception>)

  /** The mode chosen for a channel count. */
  function Mode(channels: int32): int32
  {
    if channels == 1 then MONO else JOINT_STEREO
  }

  /** `createEncoder0`: rejects a channel count other than 1 or 2 before touching
      LAME; a NULL from `lame_init` (`lameOk` false) or a negative `lame_init_params`
      reply fails with an IOException and returns 0, and in the second case the
      handle is closed first, so no failure leaks a LAME handle. On success the new
      struct (at `address`, returned by `malloc`) records the arguments. */
  function CreateEncoder0(n: Native, channels: int32, sampleRate: int32, bitRate: int32, quality: int32,
                          lameOk: bool, initParams: int32, address: int64): (r: Call<int64>)
    requires address != 0 && address !in n.heap
    ensures r.pending.None? <==> (channels == 1 || channels == 2) && lameOk && initParams >= 0
    ensures channels != 1 && channels != 2 ==>
              r == Call(n, 0, Some(IllegalArgumentException("Invalid number of channels: ")))
    ensures r.pending.Some? ==> r.value == 0 && r.native.heap == n.heap && r.pending.value.IOException? != (channels != 1 && channels != 2)
    ensures r.pending.None? ==> r.value == address && r.native.heap == n.heap[address := Encoder(channels, sampleRate, bitRate, quality)]
    ensures |r.native.trace| >= |n.trace| && r.native.trace[..|n.trace|] == n.trace
    ensures OpenHandles(r.native.trace[|n.trace|..]) == (if r.pending.None? then 1 else 0)
    ensures lameOk && (channels == 1 || channels == 2) ==>
              ModeSet(r.native.trace[|n.trace|..]) == Some(if channels == 1 then MONO else JOINT_STEREO)
  {
    if channels != 1 && channels != 2 then
      assert n.trace[|n.trace|..] == [];
      Call(n, 0, Some(IllegalArgumentException("Invalid number of channels: ")))
    else if !lameOk then
      var t := n.trace + [LameInit(false)];
      assert t[|n.trace|..] == [LameInit(false)];
      Call(Native(n.heap, t), 0, Some(IOException("Failed to initialize LAME encoder")))
    else
      var init := InitEvents(channels, sampleRate, bitRate, Mode(channels), quality);
      InitEventsFacts(channels, sampleRate, bitRate, Mode(channels), quality);
      if initParams < 0 then
        var t := n.trace + (init + [LameClose]);
        assert t[|n.trace|..] == init + [LameClose];
        Call(Native(n.heap, t), 0, Some(IOException("Failed to initialize LAME parameters")))
      else
        var t := n.trace + init;
        assert t[|n.trace|..] == init;
        Call(Native(n.heap[address := Encoder(channels, sampleRate, bitRate, quality)], t), address, None)
  }

  /** `estimate_mp3_buffer_size`: the ceiling of 1.25 * n + 7200, as an int32_t
      (defined behaviour requires the value to fit). */
  function EstimateMp3BufferSize(n: int32): (r: int32)
    requires n >= 0 && LameApi.Estimate(n) <= INT_MAX
    ensures 4 * (r - 7200) >= 5 * n && 4 * (r - 7200) < 5 * n + 4
  {
    LameApi.Estimate(n)
  }

  /** The ring buffer size `writeInternal0` allocates for `length` samples. */
  function BufferSize(length: nat, channels: int32): int
  {
    LameApi.Estimate(length) * channels
  }

  /** `writeInternal0`: pointer 0 fails with "Encoder is closed"; a length that is not
      a multiple of the channel count is rejected before anything is encoded; otherwise
      LAME gets a buffer of `estimate(length) * channels` bytes and the per-channel
      sample count (the mono entry point for one channel, the interleaved one for two),
      and the result is the first `result` bytes of that buffer, or an IOException for
      a negative result. The C code computes the buffer size in int32_t, so it needs
      that product to fit, and it copies `result` bytes out of the buffer, so it relies
      on LAME never reporting more bytes than the buffer holds. */
  function WriteInternal0(n: Native, pointer: int64, input: seq<int16>, reply: LameReply): (r: Call<Option<seq<int8>>>)
    requires ValidHeap(n.heap) && (pointer != 0 ==> pointer in n.heap)
    requires |input| <= INT_MAX
    requires pointer != 0 && |input| % n.heap[pointer].channels == 0 ==>
               BufferSize(|input|, n.heap[pointer].channels) <= INT_MAX &&
               reply.result <= BufferSize(|input|, n.heap[pointer].channels)
    ensures r.native.heap == n.heap
    ensures r.value.Some? <==> r.pending.None?
    ensures pointer == 0 ==> r == Call(n, None, Some(RuntimeException("Encoder is closed")))
    ensures pointer != 0 && |input| % n.heap[pointer].channels != 0 ==>
              r == Call(n, None, Some(IllegalArgumentException("Input length must be a multiple of the number of channels")))
    ensures pointer != 0 && |input| % n.heap[pointer].channels == 0 ==>
              var ch := n.heap[pointer].channels;
              && |r.native.trace| == |n.trace| + 1 && r.native.trace[..|n.trace|] == n.trace
              && var e := r.native.trace[|n.trace|];
              && (e.EncodeBuffer? || e.EncodeBufferInterleaved?)
              && (e.EncodeBuffer? <==> ch == 1)
              && e.numSamples * ch == |input|
              && e.bufferSize == BufferSize(|input|, ch)
              && (reply.result < 0 <==> r.pending == Some(IOException("Failed to encode samples")))
              && (reply.result >= 0 ==> r.value == Some(Take(reply.output, reply.result)))
  {
    if pointer == 0 then
      Call(n, None, Some(RuntimeException("Encoder is closed")))
    else
      var encoder := n.heap[pointer];
      var length: int32 := |input|;
      if length % encoder.channels != 0 then
        Call(n, None, Some(IllegalArgumentException("Input length must be a multiple of the number of channels")))
      else
        var bufferSize: int32 := EstimateMp3BufferSize(length) * encoder.channels;
        var event :=
          if encoder.channels == 1 then EncodeBuffer(length, bufferSize)
          else EncodeBufferInterleaved(length / encoder.channels, bufferSize);
        var native := Native(n.heap, n.trace + [event]);
        if reply.result < 0 then
          Call(native, None, Some(IOException("Failed to encode samples")))
        else
          Call(native, Some(Take(reply.output, reply.result)), None)
  }

  /** `flush0`: pointer 0 fails with "Encoder is closed"; otherwise one
      `lame_encode_flush` into a 7200-byte buffer, whose result must not be negative.
      LAME reports at most the buffer's 7200 bytes, which the copy relies on. */
  function Flush0(n: Native, pointer: int64, reply: LameReply): (r: Call<Option<seq<int8>>>)
    requires pointer != 0 ==> pointer in n.heap
    requires pointer != 0 ==> reply.result <= FLUSH_BUFFER_SIZE
    ensures r.native.heap == n.heap
    ensures r.value.Some? <==> r.pending.None?
    ensures pointer == 0 ==> r == Call(n, None, Some(RuntimeException("Encoder is closed")))
    ensures pointer != 0 ==>
              && r.native.trace == n.trace + [EncodeFlush(FLUSH_BUFFER_SIZE)]
              && (reply.result < 0 <==> r.pending == Some(IOException("Failed to flush encoder")))
              && (reply.result >= 0 ==> r.value == Some(Take(reply.output, reply.result)))
  {
    if pointer == 0 then
      Call(n, None, Some(RuntimeException("Encoder is closed")))
    else
      var native := Native(n.heap, n.trace + [EncodeFlush(FLUSH_BUFFER_SIZE)]);
      if reply.result < 0 then Call(native, None, Some(IOException("Failed to flush encoder")))
      else Call(native, Some(Take(reply.output, reply.result)), None)
  }

  /** `destroyEncoder0`: a no-op on address 0; otherwise closes the LAME handle and
      frees the struct. It does not clear the caller's copy of the address. */
  function DestroyEncoder0(n: Native, pointer: int64): (r: Native)
    requires 0 !in n.heap && (pointer != 0 ==> pointer in n.heap)
    ensures pointer == 0 ==> r == n
    ensures pointer != 0 ==> pointer !in r.heap && r.trace == n.trace + [LameClose]
    ensures forall p :: p in r.heap <==> p in n.heap && p != pointer
    ensures forall p :: p in r.heap ==> r.heap[p] == n.heap[p]
  {
    if pointer == 0 then n
    else Native(n.heap - {pointer}, n.trace + [LameClose])
  }
}
