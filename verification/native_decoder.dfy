/**
 The C JNI decoder (native/src/decoder.c) over minimp3: `createDecoder0`,
 `decodeNextFrame0`, the three header getters and `destroyDecoder0`.

 The `Decoder` struct lives in a heap indexed by its address; address 0 is the
 closed decoder. The minimp3 state belongs to the struct and is not modelled:
 each `mp3dec_decode_frame` call is an oracle whose reply (samples per channel,
 frame info, and the contents of the zero-initialised sample buffer) is a
 parameter.
 */
module NativeDecoder {
  import opened JavaLang

  /** `MINIMP3_MAX_SAMPLES_PER_FRAME` (1152 * 2), which `getMaxSamplesPerFrame0` returns. */
  const MAX_SAMPLES_PER_FRAME: int32 := 2304

  /** The C `Decoder` struct, without its minimp3 state: the latched header fields. */
  datatype Decoder = Decoder(channels: int32, sampleRate: int32, bitRate: int32)

  /** minimp3's `mp3dec_frame_info_t`. */
  datatype FrameInfo = FrameInfo(frameBytes: int32, channels: int32, hz: int32, bitrateKbps: int32)

  /** One reply of `mp3dec_decode_frame`: the samples per channel it decoded, the frame
      info it filled in, and the sample buffer afterwards. */
  datatype MiniMp3Frame = MiniMp3Frame(samples: int32, info: FrameInfo, pcm: seq<int16>)

  /** What minimp3 promises of a reply: the buffer is the full frame buffer, and a
      decoded frame has a frame size, one or two channels, and fits the buffer. */
  predicate ValidFrame(f: MiniMp3Frame)
  {
    && |f.pcm| == MAX_SAMPLES_PER_FRAME
    && (f.samples > 0 ==>
          && f.info.frameBytes > 0
          && (f.info.channels == 1 || f.info.channels == 2)
          && f.samples * f.info.channels <= MAX_SAMPLES_PER_FRAME)
  }

  /** A decoder no frame has been decoded by: every header field is -1. */
  const Unparsed := Decoder(-1, -1, -1)

  /** `createDecoder0`: a new struct, at `address`, with all header fields -1. */
  function CreateDecoder0(heap: map<int64, Decoder>, address: int64): (r: (map<int64, Decoder>, int64))
    requires address != 0 && address !in heap
    ensures r.1 == address && r.1 in r.0
    ensures r.0[address].channels == -1 && r.0[address].sampleRate == -1 && r.0[address].bitRate == -1
    ensures forall p :: p in r.0 <==> p in heap || p == address
    ensures forall p :: p in heap ==> r.0[p] == heap[p]
  {
    (heap[address := Unparsed], address)
  }

  /** The packed `long` result: the sample count in the high 32 bits, the byte count
      (as an unsigned 32-bit value) in the low 32 bits. The shift and the mask
      occupy disjoint bits, so the `|` is an addition. */
  function Pack(samples: int32, bytes: int32): int64
    requires samples >= 0
  {
    samples * TWO_32 + bytes % TWO_32
  }

  /** `result >> 32`: an arithmetic shift, i.e. division rounding down. */
  function SampleCount(result: int64): int
  {
    result / TWO_32
  }

  /** `result & 0xFFFFFFFFL`: the low 32 bits, as a non-negative value. */
  function ByteCount(result: int64): int
  {
    result % TWO_32
  }

  /** Unpacking recovers both halves: the sample count exactly, the byte count
      modulo 2^32 (so exactly when it is not negative), and the packed value is
      itself never negative. */
  lemma PackRoundTrip(samples: int32, bytes: int32)
    requires samples >= 0
    ensures Pack(samples, bytes) >= 0
    ensures SampleCount(Pack(samples, bytes)) == samples
    ensures ByteCount(Pack(samples, bytes)) == bytes % TWO_32
    ensures bytes >= 0 ==> ByteCount(Pack(samples, bytes)) == bytes
  {
    var lo := bytes % TWO_32;
    assert 0 <= lo < TWO_32;
    assert (samples * TWO_32 + lo) / TWO_32 == samples;
  }

  /** The outcome of `decodeNextFrame0`: the heap afterwards, the packed result, the
      Java output array afterwards, and the exception left pending. */
  datatype Decoded = Decoded(heap: map<int64, Decoder>, result: int64, output: seq<int16>, pending: Option<Exception>)

  /** Whether `decodeNextFrame0`'s argument checks let a call on an open decoder through. */
  predicate Accepts(input: seq<int8>, inputLength: int32, output: seq<int16>)
  {
    |output| >= MAX_SAMPLES_PER_FRAME && 0 <= inputLength <= |input|
  }

  /** `decodeNextFrame0`: address 0 throws "Decoder is closed"; an output array
      shorter than a frame, or an input length outside the input array, throws an
      IllegalArgumentException; every such failure returns 0 and changes nothing.
      Otherwise minimp3 decodes from the first `inputLength` bytes; the header
      fields are overwritten exactly when the frame has a size; with no samples
      the result is just the byte count, and with samples the samples go to the
      start of the output array and the result packs their count with the byte
      count. */
  function DecodeNextFrame0(heap: map<int64, Decoder>, pointer: int64, input: seq<int8>, inputLength: int32,
                            output: seq<int16>, frame: MiniMp3Frame): (r: Decoded)
    requires pointer != 0 ==> pointer in heap
    requires ValidFrame(frame)
    ensures pointer == 0 ==> r == Decoded(heap, 0, output, Some(RuntimeException("Decoder is closed")))
    ensures pointer != 0 && |output| < MAX_SAMPLES_PER_FRAME ==>
              r == Decoded(heap, 0, output, Some(IllegalArgumentException("Output array is too small")))
    ensures pointer != 0 && |output| >= MAX_SAMPLES_PER_FRAME && (inputLength < 0 || inputLength > |input|) ==>
              r == Decoded(heap, 0, output, Some(IllegalArgumentException("Input length is too small")))
    ensures r.pending.None? <==> pointer != 0 && Accepts(input, inputLength, output)
    ensures r.pending.None? ==>
              && (forall p :: p in r.heap <==> p in heap)
              && (forall p :: p in heap && p != pointer ==> r.heap[p] == heap[p])
              && (frame.info.frameBytes > 0 ==>
                    r.heap[pointer] == Decoder(frame.info.channels, frame.info.hz, frame.info.bitrateKbps))
              && (frame.info.frameBytes <= 0 ==> r.heap == heap)
              && |r.output| == |output|
    ensures r.pending.None? && frame.samples <= 0 ==>
              r.output == output && SampleCount(r.result) == 0 && ByteCount(r.result) == frame.info.frameBytes % TWO_32
    ensures r.pending.None? && frame.samples > 0 ==>
              var n := frame.samples * frame.info.channels;
              && SampleCount(r.result) == n
              && ByteCount(r.result) == frame.info.frameBytes
              && r.output[..n] == frame.pcm[..n]
              && r.output[n..] == output[n..]
  {
    if pointer == 0 then
      Decoded(heap, 0, output, Some(RuntimeException("Decoder is closed")))
    else if |output| < MAX_SAMPLES_PER_FRAME then
      Decoded(heap, 0, output, Some(IllegalArgumentException("Output array is too small")))
    else if inputLength < 0 || inputLength > |input| then
      Decoded(heap, 0, output, Some(IllegalArgumentException("Input length is too small")))
    else
      var info := frame.info;
      var heap' := if info.frameBytes > 0 then heap[pointer := Decoder(info.channels, info.hz, info.bitrateKbps)] else heap;
      if frame.samples <= 0 then
        PackRoundTrip(0, info.frameBytes);
        Decoded(heap', Pack(0, info.frameBytes), output, None)
      else
        var n := frame.samples * heap'[pointer].channels;
        PackRoundTrip(n, info.frameBytes);
        Decoded(heap', Pack(n, info.frameBytes), frame.pcm[..n] + output[n..], None)
  }

  /** `getChannelCount0`: -1 and "Decoder is closed" on address 0. */
  function GetChannelCount0(heap: map<int64, Decoder>, pointer: int64): (r: Jni<int32>)
    requires pointer != 0 ==> pointer in heap
    ensures pointer == 0 ==> r == Jni(-1, Some(RuntimeException("Decoder is closed")))
    ensures pointer != 0 ==> r == Jni(heap[pointer].channels, None)
  {
    if pointer == 0 then Jni(-1, Some(RuntimeException("Decoder is closed"))) else Jni(heap[pointer].channels, None)
  }

  /** `getBitRate0`: -1 and "Decoder is closed" on address 0. */
  function GetBitRate0(heap: map<int64, Decoder>, pointer: int64): (r: Jni<int32>)
    requires pointer != 0 ==> pointer in heap
    ensures pointer == 0 ==> r == Jni(-1, Some(RuntimeException("Decoder is closed")))
    ensures pointer != 0 ==> r == Jni(heap[pointer].bitRate, None)
  {
    if pointer == 0 then Jni(-1, Some(RuntimeException("Decoder is closed"))) else Jni(heap[pointer].bitRate, None)
  }

  /** `getSampleRate0`: -1 and "Decoder is closed" on address 0. */
  function GetSampleRate0(heap: map<int64, Decoder>, pointer: int64): (r: Jni<int32>)
    requires pointer != 0 ==> pointer in heap
    ensures pointer == 0 ==> r == Jni(-1, Some(RuntimeException("Decoder is closed")))
    ensures pointer != 0 ==> r == Jni(heap[pointer].sampleRate, None)
  {
    if pointer == 0 then Jni(-1, Some(RuntimeException("Decoder is closed"))) else Jni(heap[pointer].sampleRate, None)
  }

  /** A decoder fresh from `createDecoder0` reports -1 for every header field, without
      an exception; a closed one reports -1 too, with "Decoder is closed" pending. */
  lemma GettersBeforeFirstFrame(heap: map<int64, Decoder>, address: int64)
    requires address != 0 && address !in heap
    ensures var (h, p) := CreateDecoder0(heap, address);
            && GetChannelCount0(h, p) == Jni(-1, None)
            && GetSampleRate0(h, p) == Jni(-1, None)
            && GetBitRate0(h, p) == Jni(-1, None)
    ensures GetChannelCount0(heap, 0).value == -1 && GetChannelCount0(heap, 0).pending.Some?
    ensures GetSampleRate0(heap, 0).value == -1 && GetSampleRate0(heap, 0).pending.Some?
    ensures GetBitRate0(heap, 0).value == -1 && GetBitRate0(heap, 0).pending.Some?
  {
  }

  /** `destroyDecoder0`: a no-op on address 0; otherwise frees the struct, which must
      be live (freeing it twice is undefined behaviour in C). */
  function DestroyDecoder0(heap: map<int64, Decoder>, pointer: int64): (r: map<int64, Decoder>)
    requires 0 !in heap && (pointer != 0 ==> pointer in heap)
    ensures pointer == 0 ==> r == heap
    ensures forall p :: p in r <==> p in heap && p != pointer
    ensures forall p :: p in r ==> r[p] == heap[p]
  {
    if pointer == 0 then heap else heap - {pointer}
  }

  /** The arguments of one `decodeNextFrame0` call. */
  datatype Request = Request(input: seq<int8>, inputLength: int32, output: seq<int16>)

  /** The heap after a sequence of calls on one decoder, each answered by the matching
      minimp3 reply. */
  function Run(heap: map<int64, Decoder>, pointer: int64, requests: seq<Request>, frames: seq<MiniMp3Frame>): map<int64, Decoder>
    requires pointer != 0 && pointer in heap
    requires |requests| == |frames|
    requires forall k :: 0 <= k < |frames| ==> ValidFrame(frames[k])
    decreases |requests|
  {
    if |requests| == 0 then heap
    else
      var q := requests[0];
      var d := DecodeNextFrame0(heap, pointer, q.input, q.inputLength, q.output, frames[0]);
      Run(d.heap, pointer, requests[1..], frames[1..])
  }

  /** The header of the last frame that has a size, or `initial` if none has. */
  function LastHeader(initial: Decoder, frames: seq<MiniMp3Frame>): Decoder
  {
    if |frames| == 0 then initial
    else
      var f := frames[|frames| - 1];
      if f.info.frameBytes > 0 then Decoder(f.info.channels, f.info.hz, f.info.bitrateKbps)
      else LastHeader(initial, frames[..|frames| - 1])
  }

  lemma {:induction false} LastHeaderCons(initial: Decoder, f: MiniMp3Frame, rest: seq<MiniMp3Frame>)
    ensures LastHeader(initial, [f] + rest) ==
            LastHeader(if f.info.frameBytes > 0 then Decoder(f.info.channels, f.info.hz, f.info.bitrateKbps) else initial, rest)
    decreases |rest|
  {
    var all := [f] + rest;
    if |rest| == 0 {
      assert all[..0] == [];
    } else {
      assert all[..|all| - 1] == [f] + rest[..|rest| - 1];
      assert all[|all| - 1] == rest[|rest| - 1];
      LastHeaderCons(initial, f, rest[..|rest| - 1]);
    }
  }

  /** Header latching: after any sequence of accepted calls, the decoder reports the
      header of the last frame that had a size, and its initial header if none had —
      later frames overwrite earlier ones, frames without a size never do. */
  lemma {:induction false} RunLatchesLastHeader(heap: map<int64, Decoder>, pointer: int64, requests: seq<Request>, frames: seq<MiniMp3Frame>)
    requires pointer != 0 && pointer in heap
    requires |requests| == |frames|
    requires forall k :: 0 <= k < |frames| ==> ValidFrame(frames[k])
    requires forall k :: 0 <= k < |requests| ==> Accepts(requests[k].input, requests[k].inputLength, requests[k].output)
    ensures pointer in Run(heap, pointer, requests, frames)
    ensures Run(heap, pointer, requests, frames)[pointer] == LastHeader(heap[pointer], frames)
    decreases |requests|
  {
    if |requests| == 0 {
    } else {
      var q := requests[0];
      var d := DecodeNextFrame0(heap, pointer, q.input, q.inputLength, q.output, frames[0]);
      assert Accepts(q.input, q.inputLength, q.output);
      RunLatchesLastHeader(d.heap, pointer, requests[1..], frames[1..]);
      assert frames == [frames[0]] + frames[1..];
      LastHeaderCons(heap[pointer], frames[0], frames[1..]);
    }
  }
}
