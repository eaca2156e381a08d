/**
 `Mp3Decoder`, the Java class over the Rust JNI decoder: it keeps the native
 address in its `decoder` field (0 once closed) and the input stream the native
 side reads from, and its static `decode` runs a whole stream through a decoder
 into a `ShortArrayBuffer`.

 The input stream is modelled as closing without error; what it yields is seen
 only through the replies of the native decoder.
 */
module Mp3Decoder {
  import opened JavaLang
  import RustDecoder
  import ShortArrayBuffer
  import Audio
  import DecodedAudio

  /** The initial size of the sample buffer `decode` uses. */
  const DECODE_BUFFER_SIZE: int32 := 2048

  datatype Mp3Decoder = Mp3Decoder(field: int64, heap: map<int64, RustDecoder.DecoderWrapper>, streamClosed: bool)

  /** The object invariant: no wrapper lives at address 0, and a non-zero field names one. */
  predicate Valid(d: Mp3Decoder)
  {
    0 !in d.heap && (d.field != 0 ==> d.field in d.heap)
  }

  /** `isClosed()`. */
  predicate IsClosed(d: Mp3Decoder)
  {
    d.field == 0
  }

  /** A Java call on the object: the state afterwards and what it returned or threw. */
  datatype Call<+T> = Call(state: Mp3Decoder, result: Outcome<T>)

  /** A JNI result as the Java caller sees it: the pending exception is thrown. */
  function Thrown<T>(j: Jni<T>): Outcome<T>
  {
    if j.pending.Some? then Outcome.Thrown(j.pending.value) else Ok(j.value)
  }

  /** `new Mp3Decoder(inputStream)`: an open decoder over a fresh wrapper. */
  function New(heap: map<int64, RustDecoder.DecoderWrapper>, address: int64): (d: Mp3Decoder)
    requires 0 !in heap && address != 0 && address !in heap
    ensures Valid(d) && !IsClosed(d) && !d.streamClosed
    ensures d.heap[d.field] == RustDecoder.Fresh
  {
    var (h, p) := RustDecoder.CreateDecoder(heap, address);
    Mp3Decoder(p, h, false)
  }

  /** `decodeNextFrame()`: the next frame's samples, null at the end of the stream, or
      the exception the native side left pending. */
  function DecodeNextFrame(d: Mp3Decoder, next: RustDecoder.NextFrame): (r: Call<Option<seq<int16>>>)
    requires Valid(d)
    ensures Valid(r.state) && r.state.field == d.field && r.state.streamClosed == d.streamClosed
    ensures r.state.heap.Keys == d.heap.Keys
    ensures IsClosed(d) ==> r == Call(d, Outcome.Thrown(IllegalStateException("Decoder is closed")))
    ensures r.result.Ok? && r.result.value.Some? ==>
              next.Frame? && r.result.value.value == next.data && |next.data| <= INT_MAX
    ensures !IsClosed(d) && next.Frame? && |next.data| <= INT_MAX ==> r.result == Ok(Some(next.data))
    ensures !IsClosed(d) && next.Eof? ==> r == Call(d, Ok(None))
    ensures !IsClosed(d) && next.DecodeFailure? ==> r.result.Thrown? && r.state == d
  {
    var n := RustDecoder.DecodeNextFrame(d.heap, d.field, next);
    Call(Mp3Decoder(d.field, n.heap, d.streamClosed), if n.pending.Some? then Outcome.Thrown(n.pending.value) else Ok(n.samples))
  }

  /** `getChannelCount()`. */
  function GetChannelCount(d: Mp3Decoder): Outcome<int32>
    requires Valid(d)
  {
    Thrown(RustDecoder.GetChannelCount(d.heap, d.field))
  }

  /** `getSampleRate()`. */
  function GetSampleRate(d: Mp3Decoder): Outcome<int32>
    requires Valid(d)
  {
    Thrown(RustDecoder.GetSampleRate(d.heap, d.field))
  }

  /** `getBitRate()`. */
  function GetBitRate(d: Mp3Decoder): Outcome<int32>
    requires Valid(d)
  {
    Thrown(RustDecoder.GetBitRate(d.heap, d.field))
  }

  /** `createAudioFormat()` as the source links it: the Java class declares the native
      method `headerParsed`, which resolves to a symbol that neither native library
      exports (the Rust one exports `headersParsed`), so the first call throws before
      anything else happens. */
  function CreateAudioFormatAsLinked(d: Mp3Decoder): (r: Outcome<Option<Audio.AudioFormat>>)
    requires Valid(d)
    ensures r.Thrown? && r.exception.UnsatisfiedLinkError?
  {
    Outcome.Thrown(UnsatisfiedLinkError("headerParsed"))
  }

  /** Whatever the decoder's state, the format cannot be obtained as linked. */
  lemma AudioFormatUnreachableAsLinked(d: Mp3Decoder)
    requires Valid(d)
    ensures forall f :: CreateAudioFormatAsLinked(d) != Ok(f)
  {
  }

  /** `createAudioFormat()` with `headerParsed` bound to the Rust `headersParsed`: a
      closed decoder throws "Decoder is closed"; before the first frame the result is
      null; afterwards it is the `Audio` default format over the decoder's getters. */
  function CreateAudioFormat(d: Mp3Decoder): (r: Outcome<Option<Audio.AudioFormat>>)
    requires Valid(d)
    ensures IsClosed(d) ==> r == Outcome.Thrown(IllegalStateException("Decoder is closed"))
    ensures !IsClosed(d) ==> r.Ok? && (r.value.None? <==> d.heap[d.field].channels.None?)
    ensures !IsClosed(d) && r.value.Some? ==>
              var f := r.value.value;
              && f.channels == d.heap[d.field].channels.value
              && f.sampleSizeInBits == 16 && f.encoding == Audio.PcmSigned && !f.bigEndian
              && (d.heap[d.field].sampleRate.Some? ==> f.sampleRate == f.frameRate == d.heap[d.field].sampleRate.value)
    ensures !IsClosed(d) && r.value.Some? ==>
              r.value.value == Audio.CreateAudioFormat(Audio.AudioInfo(GetChannelCount(d).value, GetSampleRate(d).value, GetBitRate(d).value))
  {
    match Thrown(RustDecoder.HeadersParsed(d.heap, d.field))
    case Thrown(e) => Outcome.Thrown(e)
    case Ok(parsed) =>
      if !parsed then Ok(None)
      else
        var info := Audio.AudioInfo(GetChannelCount(d).value, GetSampleRate(d).value, GetBitRate(d).value);
        Ok(Some(Audio.CreateAudioFormat(info)))
  }

  /** `close()`: destroy the native decoder (which clears the field), set the field
      to 0, close the stream. Closing twice is harmless: the second destroy is a no-op. */
  function Close(d: Mp3Decoder): (r: Mp3Decoder)
    requires Valid(d)
    ensures Valid(r) && IsClosed(r) && r.streamClosed
    ensures forall p :: p in r.heap <==> p in d.heap && p != d.field
    ensures forall p :: p in r.heap ==> r.heap[p] == d.heap[p]
  {
    var (h, _) := RustDecoder.DestroyDecoder(d.heap, d.field);
    Mp3Decoder(0, h, true)
  }

  /** Opening a decoder and closing it at once succeeds and leaves nothing allocated. */
  lemma OpenClose(heap: map<int64, RustDecoder.DecoderWrapper>, address: int64)
    requires 0 !in heap && address != 0 && address !in heap
    ensures var d := Close(New(heap, address));
            IsClosed(d) && d.streamClosed && d.heap == heap
  {
    var d := Close(New(heap, address));
    assert d.heap.Keys == heap.Keys;
  }

  /** Every call on a closed decoder throws "Decoder is closed" and changes nothing;
      closing it again keeps it closed. */
  lemma UseAfterClose(d: Mp3Decoder, next: RustDecoder.NextFrame)
    requires Valid(d)
    ensures var c := Close(d);
            && DecodeNextFrame(c, next) == Call(c, Outcome.Thrown(IllegalStateException("Decoder is closed")))
            && GetChannelCount(c) == Outcome.Thrown(IllegalStateException("Decoder is closed"))
            && GetSampleRate(c) == Outcome.Thrown(IllegalStateException("Decoder is closed"))
            && GetBitRate(c) == Outcome.Thrown(IllegalStateException("Decoder is closed"))
            && CreateAudioFormat(c) == Outcome.Thrown(IllegalStateException("Decoder is closed"))
            && Close(c) == c
  {
    var c := Close(d);
    assert c.heap.Keys == Close(c).heap.Keys;
  }

  /** The frames the native decoder delivers before its first end-of-stream or error. */
  function LeadingFrames(replies: seq<RustDecoder.NextFrame>): (r: seq<RustDecoder.NextFrame>)
    ensures |r| <= |replies| && r == replies[..|r|]
    ensures forall k :: 0 <= k < |r| ==> r[k].Frame?
    ensures |r| < |replies| ==> !replies[|r|].Frame?
  {
    if |replies| == 0 || !replies[0].Frame? then []
    else [replies[0]] + LeadingFrames(replies[1..])
  }

  /** The reply that ends the decoding loop: the first that is not a frame, and the
      end of the stream once the replies run out. */
  function Ender(replies: seq<RustDecoder.NextFrame>): (r: RustDecoder.NextFrame)
    ensures !r.Frame?
  {
    var n := |LeadingFrames(replies)|;
    if n < |replies| then replies[n] else RustDecoder.Eof
  }

  /** The samples of a sequence of frames, one chunk per frame. */
  function Chunks(frames: seq<RustDecoder.NextFrame>): (r: seq<seq<int16>>)
    requires forall k :: 0 <= k < |frames| ==> frames[k].Frame?
    ensures |r| == |frames|
    ensures forall k :: 0 <= k < |r| ==> r[k] == frames[k].data
  {
    if |frames| == 0 then [] else [frames[0].data] + Chunks(frames[1..])
  }

  /** The `while (true)` loop of `decode`: decode a frame, stop at null, append it to
      the buffer; an exception from either stops the loop. Replies past the end of the
      sequence are end-of-stream. */
  function Collect(d: Mp3Decoder, b: ShortArrayBuffer.Buffer, replies: seq<RustDecoder.NextFrame>): (r: Call<ShortArrayBuffer.Buffer>)
    requires Valid(d) && !IsClosed(d) && ShortArrayBuffer.Valid(b)
    ensures Valid(r.state) && r.state.field == d.field && r.state.streamClosed == d.streamClosed
    ensures r.state.heap.Keys == d.heap.Keys
    ensures r.result.Ok? ==> ShortArrayBuffer.Valid(r.result.value)
    decreases |replies|
  {
    var next := if |replies| == 0 then RustDecoder.Eof else replies[0];
    var c := DecodeNextFrame(d, next);
    match c.result
    case Thrown(e) => Call(c.state, Outcome.Thrown(e))
    case Ok(None) => Call(c.state, Ok(b))
    case Ok(Some(samples)) =>
      match ShortArrayBuffer.WriteShorts(b, samples)
      case Thrown(e) => Call(c.state, Outcome.Thrown(e))
      case Ok(b') => Collect(c.state, b', replies[1..])
  }

  /** A leading frame contributes its samples ahead of the rest. */
  lemma LeadingCons(replies: seq<RustDecoder.NextFrame>)
    requires |replies| > 0 && replies[0].Frame?
    ensures LeadingFrames(replies) == [replies[0]] + LeadingFrames(replies[1..])
    ensures Ender(replies) == Ender(replies[1..])
    ensures Flatten(Chunks(LeadingFrames(replies))) == replies[0].data + Flatten(Chunks(LeadingFrames(replies[1..])))
  {
    var lead := LeadingFrames(replies);
    var rest := LeadingFrames(replies[1..]);
    assert Chunks(lead) == [replies[0].data] + Chunks(rest);
  }

  /** The loop's exit: a reply that is not a frame ends it at once, normally for the
      end of the stream and with an exception for an error. */
  lemma CollectStops(d: Mp3Decoder, b: ShortArrayBuffer.Buffer, replies: seq<RustDecoder.NextFrame>)
    requires Valid(d) && !IsClosed(d) && ShortArrayBuffer.Valid(b)
    requires |replies| == 0 || !replies[0].Frame?
    ensures LeadingFrames(replies) == []
    ensures Ender(replies).Eof? ==> Collect(d, b, replies) == Call(d, Ok(b))
    ensures !Ender(replies).Eof? ==> Collect(d, b, replies).result.Thrown?
  {
  }

  /** A frame that is not delivered, or not appended, ends the loop with an exception. */
  lemma CollectFails(d: Mp3Decoder, b: ShortArrayBuffer.Buffer, replies: seq<RustDecoder.NextFrame>)
    requires Valid(d) && !IsClosed(d) && ShortArrayBuffer.Valid(b)
    requires |replies| > 0 && replies[0].Frame?
    requires |replies[0].data| > INT_MAX || b.count + |replies[0].data| > INT_MAX
    ensures Collect(d, b, replies).result.Thrown?
  {
  }

  /** One turn of the loop on a frame that is delivered and appended. */
  lemma CollectStep(d: Mp3Decoder, b: ShortArrayBuffer.Buffer, replies: seq<RustDecoder.NextFrame>)
    requires Valid(d) && !IsClosed(d) && ShortArrayBuffer.Valid(b)
    requires |replies| > 0 && replies[0].Frame? && b.count + |replies[0].data| <= INT_MAX
    ensures ShortArrayBuffer.WriteShorts(b, replies[0].data).Ok?
    ensures var c := DecodeNextFrame(d, replies[0]);
            && c.state.heap[d.field] == RustDecoder.Header(replies[0])
            && Collect(d, b, replies) == Collect(c.state, ShortArrayBuffer.WriteShorts(b, replies[0].data).value, replies[1..])
  {
  }

  /** The loop succeeds exactly when it ends at the end of the stream (not at an
      error) with a total that fits in an int. */
  lemma {:induction false} CollectSucceeds(d: Mp3Decoder, b: ShortArrayBuffer.Buffer, replies: seq<RustDecoder.NextFrame>)
    requires Valid(d) && !IsClosed(d) && ShortArrayBuffer.Valid(b)
    ensures Collect(d, b, replies).result.Ok? <==>
              Ender(replies).Eof? && b.count + |Flatten(Chunks(LeadingFrames(replies)))| <= INT_MAX
    decreases |replies|
  {
    if |replies| == 0 || !replies[0].Frame? {
      CollectStops(d, b, replies);
    } else {
      LeadingCons(replies);
      if b.count + |replies[0].data| > INT_MAX {
        CollectFails(d, b, replies);
      } else {
        CollectStep(d, b, replies);
        var w := ShortArrayBuffer.WriteShorts(b, replies[0].data).value;
        CollectSucceeds(DecodeNextFrame(d, replies[0]).state, w, replies[1..]);
      }
    }
  }

  /** When the loop succeeds, it has appended exactly the leading frames' samples, in
      order. */
  lemma {:induction false} CollectConcatenates(d: Mp3Decoder, b: ShortArrayBuffer.Buffer, replies: seq<RustDecoder.NextFrame>)
    requires Valid(d) && !IsClosed(d) && ShortArrayBuffer.Valid(b)
    requires Collect(d, b, replies).result.Ok?
    ensures ShortArrayBuffer.Contents(Collect(d, b, replies).result.value) ==
              ShortArrayBuffer.Contents(b) + Flatten(Chunks(LeadingFrames(replies)))
    decreases |replies|
  {
    if |replies| == 0 || !replies[0].Frame? {
      CollectStops(d, b, replies);
    } else {
      LeadingCons(replies);
      if b.count + |replies[0].data| > INT_MAX {
        CollectFails(d, b, replies);
      } else {
        CollectStep(d, b, replies);
        var w := ShortArrayBuffer.WriteShorts(b, replies[0].data).value;
        CollectConcatenates(DecodeNextFrame(d, replies[0]).state, w, replies[1..]);
      }
    }
  }

  /** When the loop succeeds, the header afterwards is that of the last leading frame,
      or the one it started with if there is none. */
  lemma {:induction false} CollectKeepsLastHeader(d: Mp3Decoder, b: ShortArrayBuffer.Buffer, replies: seq<RustDecoder.NextFrame>)
    requires Valid(d) && !IsClosed(d) && ShortArrayBuffer.Valid(b)
    requires Collect(d, b, replies).result.Ok?
    ensures var lead := LeadingFrames(replies);
            Collect(d, b, replies).state.heap[d.field] ==
              (if |lead| == 0 then d.heap[d.field] else RustDecoder.Header(lead[|lead| - 1]))
    decreases |replies|
  {
    if |replies| == 0 || !replies[0].Frame? {
      CollectStops(d, b, replies);
    } else {
      LeadingCons(replies);
      if b.count + |replies[0].data| > INT_MAX {
        CollectFails(d, b, replies);
      } else {
        CollectStep(d, b, replies);
        var w := ShortArrayBuffer.WriteShorts(b, replies[0].data).value;
        CollectKeepsLastHeader(DecodeNextFrame(d, replies[0]).state, w, replies[1..]);
        var lead, rest := LeadingFrames(replies), LeadingFrames(replies[1..]);
        assert |rest| > 0 ==> lead[|lead| - 1] == rest[|rest| - 1];
      }
    }
  }

  /** The outcome of `Mp3Decoder.decode(inputStream)`: the decoder object afterwards
      and the result. */
  datatype Decoding = Decoding(decoder: Mp3Decoder, audio: Outcome<DecodedAudio.DecodedAudio>)

  /** `decode(inputStream)`: open a decoder, collect every frame into a buffer of
      initial size 2048, read the three getters (with no emptiness or header check,
      so they may be -1), and close the decoder on every path. */
  function Decode(heap: map<int64, RustDecoder.DecoderWrapper>, address: int64, replies: seq<RustDecoder.NextFrame>): (r: Decoding)
    requires 0 !in heap && address != 0 && address !in heap
    ensures IsClosed(r.decoder) && r.decoder.streamClosed && r.decoder.heap.Keys == heap.Keys
  {
    var d := New(heap, address);
    var c := Collect(d, ShortArrayBuffer.New(DECODE_BUFFER_SIZE).value, replies);
    var audio :=
      match c.result
      case Thrown(e) => Outcome.Thrown(e)
      case Ok(b) =>
        Ok(DecodedAudio.DecodedAudio(GetChannelCount(c.state).value, GetSampleRate(c.state).value,
                                     GetBitRate(c.state).value, ShortArrayBuffer.ToShortArray(b)));
    Decoding(Close(c.state), audio)
  }

  /** The whole-stream result: it succeeds exactly when the stream ends without a
      decoding error and the samples fit in an int; its samples are then the
      concatenation, in order, of every frame before the end, and its header is that
      of the last frame, or -1 in every field when there was none. */
  lemma DecodeConcatenatesFrames(heap: map<int64, RustDecoder.DecoderWrapper>, address: int64, replies: seq<RustDecoder.NextFrame>)
    requires 0 !in heap && address != 0 && address !in heap
    ensures var r := Decode(heap, address, replies);
            var lead := LeadingFrames(replies);
            && (r.audio.Ok? <==> Ender(replies).Eof? && |Flatten(Chunks(lead))| <= INT_MAX)
            && (r.audio.Ok? ==> r.audio.value.samples == Flatten(Chunks(lead)))
            && (r.audio.Ok? && |lead| == 0 ==>
                  r.audio.value.channelCount == -1 && r.audio.value.sampleRate == -1 && r.audio.value.bitRate == -1)
            && (r.audio.Ok? && |lead| > 0 ==>
                  var last := lead[|lead| - 1];
                  && r.audio.value.channelCount == Wrap32(last.channels)
                  && r.audio.value.sampleRate == last.sampleRate
                  && r.audio.value.bitRate == last.bitrate)
  {
    var d := New(heap, address);
    var b := ShortArrayBuffer.New(DECODE_BUFFER_SIZE).value;
    CollectSucceeds(d, b, replies);
    var c := Collect(d, b, replies);
    var r := Decode(heap, address, replies);
    assert r.audio.Ok? <==> c.result.Ok?;
    if c.result.Ok? {
      assert r.audio.value == DecodedAudio.DecodedAudio(GetChannelCount(c.state).value, GetSampleRate(c.state).value,
                                                        GetBitRate(c.state).value, ShortArrayBuffer.ToShortArray(c.result.value));
      CollectConcatenates(d, b, replies);
      CollectKeepsLastHeader(d, b, replies);
      ShortArrayBuffer.ToShortArrayIsContents(c.result.value);
    }
  }
}
