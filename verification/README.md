# lame4j adapter layer in Dafny

lame4j wraps two native codecs behind streaming Java APIs: LAME encodes MP3, and
either hip (through JNA) or minimp3 (through JNI) decodes it. This project models
the adapter code around those codecs and proves what the adapters promise. The
codecs themselves are not modelled.

The project has one module per source file.

**Encoding.**
- `LameEncoder` is the JNA encoder.
- `Mp3Encoder` is the JNI encoder facade, bound to the C library's `*0` entry
  points.
- `NativeEncoder` is `native/src/encoder.c`.
- `RustEncoder` is `rust/src/lame/encoder.rs`.

**Decoding.**
- `LameDecoder` is the JNA decoder: the magic-byte check, the read/decode loops
  and interleaving.
- `NativeDecoder` is `native/src/decoder.c`.
- `RustDecoder` is `rust/src/lame/decoder.rs`.
- `Mp3Decoder` is the JNI decoder facade, bound to the Rust entry points, whose
  names match every `native` declaration except `headerParsed` (see "## Findings").

**Shared pieces.**
- `ShortArrayBuffer` is the growable sample buffer.
- `Audio` and `DecodedAudio` derive the `AudioFormat`.
- `JavaLang` holds Java's fixed-width integers, 32-bit wrap-around, exceptions and
  result wrappers.
- `LameApi` holds the LAME calls as trace events, the mode constants and the exact
  buffer estimate.

**How the foreign parts are represented.**
- **Codecs are oracles.** Every native codec call takes the codec's reply as a
  parameter:
  - a `LameReply` for encode and flush;
  - a `MiniMp3Frame` or `NextFrame` for one decode step;
  - a finite script of replies for a whole-stream loop. Past the end of the
    script, hip reports 0 samples and minimp3 reports end of file.
- **Traces.** The encoder side records every LAME call and every write to or
  close of the output stream as a trace of `Event`s. Call order, forwarded bytes
  and handle balance are stated over that trace.
- **Handles.** The native structs live in a map from `int64` addresses. The Java
  object holds the address, and 0 means closed.
- **Pending exceptions.** A JNI call that raises a Java exception returns its value
  together with the pending exception.
- **Rust panics.** A Rust panic inside an `extern "C"` function aborts the process.
  The model returns `Aborted` for it.
- **Java `assert`s** apply when assertions are enabled, given as the flag `ea`.
- **Fixed-width arithmetic.** Java `int` arithmetic that can overflow is wrapped
  explicitly with `Wrap32`:
  - buffer growth;
  - the saturating `(int)` cast and the `* channels` of the JNA encoder;
  - Rust's `as i32`.
- **Getters and values.**
  - `DecodedAudio` is an immutable value, so its getters are its fields, and
    `getSamples` hands back the array it was given.
  - `LameDecoder`'s getters are the fields of `Mp3Data`.

Where the three encoder implementations disagree, each is modelled as written.
The Rust encoder picks LAME's mode the opposite way from the C and JNA encoders
(`RustEncoder.ModeOppositeToC`). The Rust encoder does not validate the channel
count, and its flush does not check for a negative result.

## Model

| member | source | states |
|---|---|---|
| ShortArrayBuffer.New | src/main/java/de/maxhenkel/lame4j/ShortArrayBuffer.java:15-20 | throws IllegalArgumentException exactly for a negative size; otherwise the buffer is empty with capacity equal to the size |
| ShortArrayBuffer.NewDefault | src/main/java/de/maxhenkel/lame4j/ShortArrayBuffer.java:11-13 | the default buffer is empty with capacity 32 |
| ShortArrayBuffer.HugeLengthCovers | src/main/java/de/maxhenkel/lame4j/ShortArrayBuffer.java:41-50 | hugeLength throws OutOfMemoryError exactly when old + minGrowth overflows an int; otherwise it returns the larger of SOFT_MAX and old + minGrowth |
| ShortArrayBuffer.NewLengthGrows | src/main/java/de/maxhenkel/lame4j/ShortArrayBuffer.java:30-39 | newLength(old, min, old) succeeds exactly when old + min fits an int. It returns old + max(min, old), i.e. at least doubling, when that stays at or below SOFT_MAX; otherwise it returns hugeLength's answer; it never returns less than old + min |
| ShortArrayBuffer.EnsureCapacity | src/main/java/de/maxhenkel/lame4j/ShortArrayBuffer.java:22-28 | after growth the capacity is at least minCapacity and never shrinks; the old array is a prefix of the new one; the count is unchanged; enough capacity means no change; failure is only OutOfMemoryError |
| ShortArrayBuffer.Write | src/main/java/de/maxhenkel/lame4j/ShortArrayBuffer.java:52-56 | contents become old contents plus the one sample, possible exactly while count < Integer.MAX_VALUE |
| ShortArrayBuffer.WriteSlice | src/main/java/de/maxhenkel/lame4j/ShortArrayBuffer.java:58-63 | contents become old contents plus b[off..off+len], possible exactly when the slice is in bounds and the new count fits an int |
| ShortArrayBuffer.WriteShorts | src/main/java/de/maxhenkel/lame4j/ShortArrayBuffer.java:65-67 | appends the whole array, possible exactly when the new count fits an int |
| ShortArrayBuffer.Reset | src/main/java/de/maxhenkel/lame4j/ShortArrayBuffer.java:69-71 | contents become empty, and the backing array and its capacity are untouched |
| ShortArrayBuffer.ToShortArray | src/main/java/de/maxhenkel/lame4j/ShortArrayBuffer.java:73-75 | returns exactly the first count elements of the backing array |
| ShortArrayBuffer.Size | src/main/java/de/maxhenkel/lame4j/ShortArrayBuffer.java:77-79 | size is the length of the contents and at most the capacity |
| ShortArrayBuffer.ToShortArrayIsContents | src/main/java/de/maxhenkel/lame4j/ShortArrayBuffer.java:73-75 | toShortArray returns the abstract contents |
| ShortArrayBuffer.WriteAllConcatenates | src/main/java/de/maxhenkel/lame4j/ShortArrayBuffer.java:58-67 | a series of writes succeeds exactly when the total fits an int, and the buffer then holds the old contents followed by every chunk in order |
| Audio.SampleSizeInBits | src/main/java/de/maxhenkel/lame4j/Audio.java:23-25 | the sample size is 16 bits |
| Audio.CreateAudioFormat | src/main/java/de/maxhenkel/lame4j/Audio.java:32-34 | signed PCM, little-endian, 16-bit samples, channels and frame rate equal to the sample rate; frame size 2·channels (wrapped as an int) |
| Audio.PcmBytes | src/main/java/de/maxhenkel/lame4j/Audio.java:33 | the little-endian byte layout has two bytes per sample |
| Audio.PcmRoundTrip | src/main/java/de/maxhenkel/lame4j/Audio.java:33 | reading the little-endian bytes back gives the original samples |
| Audio.FrameSizeMatchesLayout | src/main/java/de/maxhenkel/lame4j/Audio.java:33 | for one or two channels, frames · frameSize is exactly the byte length of the interleaved samples |
| DecodedAudio.CreateAudioFormat | src/main/java/de/maxhenkel/lame4j/DecodedAudio.java:37-40 | agrees field for field with the Audio default for the same values: 16-bit, channelCount channels |
| LameDecoder.HasMagicBytesFromIff | src/main/java/de/maxhenkel/lame4j/LameDecoder.java:108-125 | the loop from pattern k on answers true exactly when the data starts with one of the patterns k.. (the early false on a too-long pattern loses nothing because patterns are sorted by length) |
| LameDecoder.HasMagicBytesCorrect | src/main/java/de/maxhenkel/lame4j/LameDecoder.java:14-19 | hasMagicBytes holds exactly when the data starts with FF FB, FF F3, FF F2 or "ID3" |
| LameDecoder.FirstBuffer | src/main/java/de/maxhenkel/lame4j/LameDecoder.java:51-53 | the checked buffer is the 1024-byte array holding the first read, zero-filled after it |
| LameDecoder.PaddingKeepsMagic | src/main/java/de/maxhenkel/lame4j/LameDecoder.java:58-60 | checking the zero-padded buffer gives the same answer as checking the bytes actually read |
| LameDecoder.Interleave | src/main/java/de/maxhenkel/lame4j/LameDecoder.java:91-98 | out[2i] = left[i] and out[2i+1] = right[i], of twice the length |
| LameDecoder.InterleaveRoundTrip | src/main/java/de/maxhenkel/lame4j/LameDecoder.java:91-98 | the even and odd positions of the interleaved array give back left and right |
| LameDecoder.DeinterleaveRoundTrip | src/main/java/de/maxhenkel/lame4j/LameDecoder.java:91-98 | interleaving the even and odd positions of an even-length array rebuilds it |
| LameDecoder.InterleaveFrame | src/main/java/de/maxhenkel/lame4j/LameDecoder.java:91-98 | the index loop over samplesRead ≤ 8192 produces the interleaving of the first samplesRead samples of both arrays |
| LameDecoder.FrameSamples | src/main/java/de/maxhenkel/lame4j/LameDecoder.java:88-99 | mono hands over left[0..n); otherwise the interleaving of left and right of length 2n; more than 8192 samples throws IndexOutOfBoundsException |
| LameDecoder.Drain | src/main/java/de/maxhenkel/lame4j/LameDecoder.java:76-100 | the inner loop passes the chunk on the first call and 0 bytes on every later call, one native call per step |
| LameDecoder.DrainFaithful | src/main/java/de/maxhenkel/lame4j/LameDecoder.java:76-100 | the inner loop accepts a run of replies and emits exactly their samples in order. Any exception comes from the reply after them: "Failed to parse MP3 header" for samples without a parsed header, IndexOutOfBounds for too many samples |
| LameDecoder.DrainEndsAtEmptyReply | src/main/java/de/maxhenkel/lame4j/LameDecoder.java:80-82 | the inner loop ends normally only on a reply with no samples |
| LameDecoder.Feed | src/main/java/de/maxhenkel/lame4j/LameDecoder.java:70-101 | the outer loop's native calls are numbered consecutively from the first |
| LameDecoder.FeedFaithful | src/main/java/de/maxhenkel/lame4j/LameDecoder.java:70-101 | the outer loop, across chunks, emits exactly the samples of the accepted replies in order and throws only for the reply after them |
| LameDecoder.FeedPassesEachChunkOnce | src/main/java/de/maxhenkel/lame4j/LameDecoder.java:70-82 | the non-empty inputs passed to the native decoder are exactly the chunks read (a prefix of them if an exception intervenes), each once and in order |
| LameDecoder.Decode | src/main/java/de/maxhenkel/lame4j/LameDecoder.java:50-106 | an empty first read returns without native calls. A first chunk without magic bytes throws "Invalid file format" before any native resource is opened. Otherwise the first chunk is only inspected and every later chunk is decoded once. The consumer gets exactly the accepted replies' samples. Handles and stream are released on the normal path only |
| LameDecoder.DecodeToArray | src/main/java/de/maxhenkel/lame4j/LameDecoder.java:38-42 | decode() returns the in-order concatenation of every chunk handed to the consumer, and succeeds exactly when decoding does and the total fits an int |
| LameDecoder.Format | src/main/java/de/maxhenkel/lame4j/LameDecoder.java:182-187 | null exactly until header_parsed is 1; then 16-bit samples, stereo channels, and the Audio default format for the header fields |
| LameApi.EstimateIsCeiling | native/src/encoder.c:82-84 | the integer estimate 7200 + (5n+3) div 4 is the least integer at or above 1.25n + 7200 |
| NativeEncoder.CreateEncoder0 | native/src/encoder.c:36-80 | succeeds exactly for 1 or 2 channels, a non-NULL lame_init and non-negative init params. Bad channels throw IllegalArgumentException before lame_init; other failures throw IOException and return 0, closing the handle if it was opened. Mode is MONO for 1 channel, JOINT_STEREO otherwise |
| NativeEncoder.EstimateMp3BufferSize | native/src/encoder.c:82-84 | the estimate is ceil(1.25n + 7200) |
| NativeEncoder.WriteInternal0 | native/src/encoder.c:86-128 | pointer 0 throws "Encoder is closed"; a length not a multiple of the channel count throws before any LAME call. Otherwise one call with buffer estimate(len)·channels: mono with len samples, stereo interleaved with len/channels. A negative result throws; otherwise exactly result bytes come back. LAME's reply must fit the buffer |
| NativeEncoder.Flush0 | native/src/encoder.c:130-154 | pointer 0 throws; otherwise one flush into a 7200-byte buffer. A negative result throws; otherwise exactly result bytes come back. LAME's reply must fit the 7200 bytes |
| NativeEncoder.DestroyEncoder0 | native/src/encoder.c:156-167 | a no-op on pointer 0; otherwise closes the LAME handle and frees exactly that struct |
| LameEncoder.New | src/main/java/de/maxhenkel/lame4j/LameEncoder.java:22-37 | with assertions on, channels outside {1,2} or quality outside 0..9 throw before LAME is touched. Otherwise it runs lame_init and configures channels, rate, bit rate, the mode (MONO for 1 channel, else JOINT_STEREO) and quality in that order; a negative init params reply throws IOException |
| LameEncoder.EstimateMp3BufferSize | src/main/java/de/maxhenkel/lame4j/LameEncoder.java:81-83 | ceil(1.25n + 7200), saturated at Integer.MAX_VALUE by the (int) cast |
| LameEncoder.Write | src/main/java/de/maxhenkel/lame4j/LameEncoder.java:45-58 | with assertions on, a length not a multiple of the channel count throws AssertionError. A successful write appends exactly the encoded bytes to the sink; a failed one writes nothing |
| LameEncoder.WriteEncodes | src/main/java/de/maxhenkel/lame4j/LameEncoder.java:45-58 | for 1 or 2 channels the buffer holds estimate(len)·channels bytes: mono passes len samples, stereo passes len/channels to the interleaved call. A negative result throws IOException; otherwise exactly the first result bytes reach the sink |
| LameEncoder.Close | src/main/java/de/maxhenkel/lame4j/LameEncoder.java:66-75 | flush into 7200 bytes, write the flushed prefix, lame_close, close the stream, in that order. A negative or oversized flush result fails the write before lame_close |
| LameEncoder.CloseReleases | src/main/java/de/maxhenkel/lame4j/LameEncoder.java:66-75 | a successful close writes exactly the flushed bytes and releases one LAME handle |
| LameEncoder.StereoBufferLengthWraps | src/main/java/de/maxhenkel/lame4j/LameEncoder.java:47 | for long stereo input the int product estimate·2 wraps negative, so the buffer allocation fails |
| Mp3Encoder.New | src/main/java/de/maxhenkel/lame4j/Mp3Encoder.java:23-27 | the encoder opens exactly when the native create succeeds; on failure the heap and the sink are untouched |
| Mp3Encoder.Write | src/main/java/de/maxhenkel/lame4j/Mp3Encoder.java:39-44 | a closed encoder throws "Encoder is closed". Otherwise it succeeds exactly for a length that is a multiple of the channel count and a non-negative LAME result, and then forwards exactly the returned bytes; a failure writes nothing |
| Mp3Encoder.Close | src/main/java/de/maxhenkel/lame4j/Mp3Encoder.java:56-66 | flush, write the flushed bytes, destroy, set the pointer to 0, close the sink, in that order. A closed encoder throws "Encoder is closed" |
| Mp3Encoder.UseAfterClose | src/main/java/de/maxhenkel/lame4j/Mp3Encoder.java:56-72 | after close, isClosed holds, and write and a second close both fail with "Encoder is closed" |
| Mp3Encoder.WriteEach | src/main/java/de/maxhenkel/lame4j/Mp3Encoder.java:39-44 | a series of writes keeps the encoder's pointer, heap and sink state |
| Mp3Encoder.WriteEachForwards | src/main/java/de/maxhenkel/lame4j/Mp3Encoder.java:39-44 | a series of successful writes sends the sink exactly the concatenation of the encoded bytes |
| Mp3Encoder.SessionForwardsEverything | src/main/java/de/maxhenkel/lame4j/Mp3Encoder.java:39-66 | writes followed by close send the sink every encoded byte and then the flushed bytes, release the handle and leave the encoder closed |
| RustEncoder.CreateEncoder | rust/src/lame/encoder.rs:18-42 | configures LAME with JOINT_STEREO for 1 channel and MONO otherwise; a negative init params reply closes the handle, throws IOException and returns 0 |
| RustEncoder.EstimateMp3BufferSize | rust/src/lame/encoder.rs:108-110 | the estimate is ceil(1.25n + 7200) as an unbounded usize |
| RustEncoder.WriteInternal | rust/src/lame/encoder.rs:44-106 | field 0 throws "Encoder is closed". A length not a multiple of the channel count (as usize) throws before any LAME call. Zero channels abort on the remainder by zero. Negative channels with empty input pass that check and abort when the buffer length `estimate(0) * channels as usize` overflows or exceeds what `vec!` can allocate |
| RustEncoder.WriteInternalEncodes | rust/src/lame/encoder.rs:61-105 | one LAME call (mono or interleaved) with len/channels samples and the buffer length cast to i32. It aborts exactly when LAME reports more bytes than the buffer holds; a negative result throws, otherwise exactly the first result bytes come back |
| RustEncoder.Flush | rust/src/lame/encoder.rs:112-142 | one flush into 7200 bytes. A negative result is not checked: it fails at the array allocation. An oversized one aborts; otherwise exactly result bytes come back |
| RustEncoder.DestroyEncoder | rust/src/lame/encoder.rs:144-157 | a no-op on field 0; otherwise lame_close, free, and field set to 0 |
| RustEncoder.DestroyTwice | rust/src/lame/encoder.rs:144-157 | destroying a second time changes nothing |
| RustEncoder.ModeOppositeToC | rust/src/lame/encoder.rs:25 | for 1 or 2 channels the Rust mode differs from the C encoder's |
| NativeDecoder.CreateDecoder0 | native/src/decoder.c:31-44 | a fresh decoder has channels, sample rate and bit rate all -1 |
| NativeDecoder.PackRoundTrip | native/src/decoder.c:103-106 | the high word of the packed result gives back the sample count and the low word the byte count, both as non-negative values |
| NativeDecoder.DecodeNextFrame0 | native/src/decoder.c:53-107 | pointer 0, an output shorter than 2304 and an input length outside [0, array length] each throw. The header fields are overwritten exactly when frame_bytes > 0. No samples packs only the byte count. Otherwise samples·channels are copied into the output, the rest is untouched, and the count is packed above the byte count |
| NativeDecoder.GetChannelCount0 | native/src/decoder.c:109-119 | pointer 0 throws and returns -1; otherwise the latched channel count |
| NativeDecoder.GetBitRate0 | native/src/decoder.c:121-131 | pointer 0 throws and returns -1; otherwise the latched bit rate |
| NativeDecoder.GetSampleRate0 | native/src/decoder.c:133-143 | pointer 0 throws and returns -1; otherwise the latched sample rate |
| NativeDecoder.GettersBeforeFirstFrame | native/src/decoder.c:22-44 | all getters answer -1 on a fresh decoder, and -1 with an exception on pointer 0 |
| NativeDecoder.DestroyDecoder0 | native/src/decoder.c:145-156 | a no-op on pointer 0; otherwise frees exactly that decoder, which must be live |
| NativeDecoder.RunLatchesLastHeader | native/src/decoder.c:88-93 | after a series of accepted calls the header is that of the last frame that consumed bytes, or the initial one if none did |
| RustDecoder.CreateDecoder | rust/src/lame/decoder.rs:14-31 | a fresh wrapper has channels, sample rate and bit rate all None |
| RustDecoder.DecodeNextFrame | rust/src/lame/decoder.rs:33-74 | field 0 throws "Decoder is closed"; end of file returns null and leaves the fields alone; a decode error throws IOException. Every decoded frame overwrites all three fields and returns exactly its samples; an array too long for a Java array fails |
| RustDecoder.HeadersParsed | rust/src/lame/decoder.rs:76-85 | exactly whether channels is Some; false and an exception on field 0 |
| RustDecoder.GetChannelCount | rust/src/lame/decoder.rs:87-96 | the channel count, -1 when None, and 0 with an exception on field 0 |
| RustDecoder.GetBitRate | rust/src/lame/decoder.rs:98-107 | the bit rate, -1 when None, and 0 with an exception on field 0 |
| RustDecoder.GetSampleRate | rust/src/lame/decoder.rs:109-118 | the sample rate, -1 when None, and 0 with an exception on field 0 |
| RustDecoder.DestroyDecoder | rust/src/lame/decoder.rs:120-130 | a no-op on field 0; otherwise frees exactly that wrapper, which must be live, and sets the field to 0 |
| RustDecoder.DestroyTwice | rust/src/lame/decoder.rs:120-130 | destroying a second time changes nothing |
| RustDecoder.RunRecordsLastFrame | rust/src/lame/decoder.rs:55-57 | after a series of calls the fields are those of the last decoded frame, not the first, or unchanged if none was decoded |
| RustDecoder.HeadersParsedIffFrameDecoded | rust/src/lame/decoder.rs:14-85 | on a fresh decoder headersParsed becomes true exactly when some frame has been decoded |
| Mp3Decoder.New | src/main/java/de/maxhenkel/lame4j/Mp3Decoder.java:13-17 | a new decoder is open, with a fresh native wrapper and an open stream |
| Mp3Decoder.DecodeNextFrame | src/main/java/de/maxhenkel/lame4j/Mp3Decoder.java:28-32 | a closed decoder throws; a frame returns its samples; end of file returns null with no state change; a decode error changes nothing |
| Mp3Decoder.CreateAudioFormatAsLinked | src/main/java/de/maxhenkel/lame4j/Mp3Decoder.java:59-66 | as linked, the call always fails with UnsatisfiedLinkError, because the native `headerParsed` it calls has no implementation |
| Mp3Decoder.AudioFormatUnreachableAsLinked | src/main/java/de/maxhenkel/lame4j/Mp3Decoder.java:37 | no decoder state makes the linked createAudioFormat return a format |
| Mp3Decoder.CreateAudioFormat | src/main/java/de/maxhenkel/lame4j/Mp3Decoder.java:59-66 | null exactly while no header has been parsed; otherwise the Audio default format from the getters |
| Mp3Decoder.Close | src/main/java/de/maxhenkel/lame4j/Mp3Decoder.java:70-79 | destroys only this decoder's wrapper, makes isClosed true and closes the stream |
| Mp3Decoder.OpenClose | src/test/java/de/maxhenkel/lame4j/Mp3DecoderTest.java:16-19 | opening and immediately closing a decoder succeeds and leaves the heap as it was |
| Mp3Decoder.UseAfterClose | src/main/java/de/maxhenkel/lame4j/Mp3Decoder.java:70-79 | after close, isClosed holds and decodeNextFrame throws "Decoder is closed" |
| Mp3Decoder.Collect | src/main/java/de/maxhenkel/lame4j/Mp3Decoder.java:84-90 | the frame loop keeps the decoder open and the set of native wrappers unchanged |
| Mp3Decoder.CollectStops | src/main/java/de/maxhenkel/lame4j/Mp3Decoder.java:84-88 | the loop stops at the first null without writing; a decode failure there propagates |
| Mp3Decoder.CollectFails | src/main/java/de/maxhenkel/lame4j/Mp3Decoder.java:85-89 | a frame that does not fit the buffer ends the loop with an exception |
| Mp3Decoder.CollectSucceeds | src/main/java/de/maxhenkel/lame4j/Mp3Decoder.java:84-90 | the loop succeeds exactly when the frames end at end of file and their total fits an int |
| Mp3Decoder.CollectConcatenates | src/main/java/de/maxhenkel/lame4j/Mp3Decoder.java:84-90 | after a successful loop the buffer holds the old contents followed by every frame's samples in order |
| Mp3Decoder.CollectKeepsLastHeader | src/main/java/de/maxhenkel/lame4j/Mp3Decoder.java:84-91 | after a successful loop the decoder's fields are those of the last frame, or unchanged if there was none |
| Mp3Decoder.Decode | src/main/java/de/maxhenkel/lame4j/Mp3Decoder.java:81-93 | on every path the decoder ends closed, its stream closed and its wrapper freed |
| Mp3Decoder.DecodeConcatenatesFrames | src/main/java/de/maxhenkel/lame4j/Mp3Decoder.java:81-93 | succeeds exactly when the frames end at end of file and fit an int. The samples are all frames concatenated in order. The fields are the last frame's, or -1 when there were no frames, because nothing checks for emptiness |

## Findings

| source | as written | input that shows it | evidently intended | confidence | as-written member | corrected member |
|---|---|---|---|---|---|---|
| src/main/java/de/maxhenkel/lame4j/Mp3Decoder.java:37 | the native method is declared as `headerParsed`, but the Rust library exports `Java_de_maxhenkel_lame4j_Mp3Decoder_headersParsed` (rust/src/lame/decoder.rs:77), so the JVM finds no implementation | any call of `createAudioFormat()` on an open decoder, even right after construction | `createAudioFormat` returns null until a frame has been decoded, then the format from the getters | high, not executed | Mp3Decoder.CreateAudioFormatAsLinked | Mp3Decoder.CreateAudioFormat |

## Left out

- Exception messages keep only their fixed text. The formatted value is dropped: the channel count in "Invalid number of channels: %d" (native/src/encoder.c:45), the size in "Negative initial size: " (src/main/java/de/maxhenkel/lame4j/ShortArrayBuffer.java:17), the old length and growth in "Required array length ... is too large" (ShortArrayBuffer.java:44), and the LAME return code or Rust error text after ": " in the Rust messages (rust/src/lame/encoder.rs:31,85,92,127 and rust/src/lame/decoder.rs:50,62,69). Integer and error formatting is not modelled; the exception's class and the fixed part of its message are.
- JNI and JNA plumbing are not modelled: field get and set, array region copies, `get_array_length`, pointer casts, and failures of any of these. `malloc` and `Box` allocation always succeed, and the struct address is a parameter.
- `JavaInputStream::read` (rust/src/lame/decoder.rs:132-188) and minimp3's reading are folded into the `NextFrame` oracle.
- The codecs themselves (LAME encoding, hip and minimp3 frame decoding) are not modelled. Their replies are parameters, constrained only by buffer lengths (`ValidFrame`).
- The output stream accepts every write, and closing it does not fail. Input streams are given as the chunks their reads return.
- `synchronized` in `ShortArrayBuffer` and concurrent use are not modelled. The model is sequential.
- Library loading (`Lame.load`, `LibraryLoader`, `NativeInitializer`), the CLI and the tests that run the codecs are not modelled.
- Floating point is not modelled. The `Math.ceil(1.25 * n + 7200)` of every encoder is the exact integer `7200 + (5n+3) div 4`. That is equal because 1.25 is a binary fraction and 1.25n is far below 2^53.
- NativeEncoder.WriteInternal0: requires `estimate(len) * channels` to fit an int. In C that signed overflow is undefined behaviour, and the model does not choose a result.
- NativeEncoder.WriteInternal0, NativeEncoder.Flush0: require LAME's reported byte count to be at most the buffer's length, as LAME's own contract promises. A larger count would make the C code copy past the `calloc`'d buffer, which is undefined behaviour, so the model does not choose a result. The same bound is required of the replies given to `Mp3Encoder.Write` and `Mp3Encoder.Close`.
- NativeDecoder.DestroyDecoder0, RustDecoder.DestroyDecoder: require a non-zero address to name a live decoder. Freeing a decoder twice is undefined behaviour in both C and Rust.
- NativeEncoder.CreateEncoder0: a NULL `lame_init` is a parameter of the C encoder only. The JNA and Rust encoders do not check it, and the model treats their handle as valid.
- RustEncoder.Flush: for a negative flush result, the JVM's pending NegativeArraySizeException is replaced by the IOException the code throws next. The JNI state detail is not modelled.
- RustDecoder.DecodeNextFrame: the same simplification applies to a failed `new_short_array`. A frame longer than `i32::MAX` samples yields the Rust error message, and the JVM's own pending exception is not modelled.
- Rust allocation failure for a huge `vec!` is not modelled. Only the arithmetic that decides the length is modelled.
- `getMaxSamplesPerFrame0` (native/src/decoder.c:46-51) appears only as the constant `MAX_SAMPLES_PER_FRAME` = 2304, which the argument check uses.
- LameDecoder getters (`getSampleRate`, `getChannelCount`, `getBitrate`, `getFrameSize`) are plain reads of the `Mp3Data` fields, so they have no members of their own.
- LameDecoder.FrameSamples: more than 8192 samples from hip is modelled as an IndexOutOfBoundsException for both layouts. In mono the decoder itself does not fail: it hands the consumer a length past the 8192-element array. For `decode()` the consumer is `ShortArrayBuffer.write`, whose `assert off + len <= b.length` (src/main/java/de/maxhenkel/lame4j/ShortArrayBuffer.java:59) throws AssertionError when assertions are enabled, and whose `System.arraycopy` throws ArrayIndexOutOfBoundsException otherwise. A consumer supplied by the caller may not fail at all.
- The carry-over of undecoded input between `decodeNextFrame0` calls is not modelled, because no modelled Java class declares `decodeNextFrame0`. Only the packed result is modelled.
- The C decoder's `*0` entry points and the Rust encoder's entry points have no Java declaration among the modelled files, so they are modelled as standalone JNI functions.
- Mp3Decoder.Decode: an exception thrown by `close` in try-with-resources, suppressed or replacing the original, is not modelled. Closing always succeeds.
- Mp3Decoder.GetChannelCount, Mp3Decoder.GetSampleRate, Mp3Decoder.GetBitRate: forward to the Rust getters and carry no contract of their own.
- `Mp3Encoder.isClosed` and `Mp3Decoder.isClosed` are the predicates `IsClosed` (pointer == 0), used in the contracts above.
- JNA LameEncoder use after close is not modelled. The freed LAME handle is passed to LAME again, which is outside any contract.
