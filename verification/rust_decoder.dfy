/**
 The Rust JNI decoder (rust/src/lame/decoder.rs) over the minimp3 crate: the
 functions behind `Mp3Decoder`'s `createDecoder`, `decodeNextFrame`,
 `headersParsed`, the three getters and `destroyDecoder`.

 The boxed `DecoderWrapper` lives in a heap indexed by its address, which the Java
 object keeps in its `decoder` field (0 = closed). Its minimp3 decoder, together
 with the Java input stream it reads through, is an oracle: each `next_frame`
 call is answered by a `NextFrame` reply.
 */
module RustDecoder {
  import opened JavaLang

  /** `DecoderWrapper` without the minimp3 decoder: the header of the last frame. */
  datatype DecoderWrapper = DecoderWrapper(channels: Option<int32>, sampleRate: Option<int32>, bitRate: Option<int32>)

  /** The reply of `Decoder::next_frame`: a frame (its interleaved samples, sample
      rate, `usize` channel count and bit rate), the end of the stream, or any other
      decoding error. */
  datatype NextFrame =
    | Frame(data: seq<int16>, sampleRate: int32, channels: nat, bitrate: int32)
    | Eof
    | DecodeFailure

  /** A wrapper no frame has been decoded by. */
  const Fresh := DecoderWrapper(None, None, None)

  /** `createDecoder`: a new wrapper, at `address`, with no header. */
  function CreateDecoder(heap: map<int64, DecoderWrapper>, address: int64): (r: (map<int64, DecoderWrapper>, int64))
    requires address != 0 && address !in heap
    ensures r.1 == address && r.1 in r.0
    ensures r.0[address].channels.None? && r.0[address].sampleRate.None? && r.0[address].bitRate.None?
    ensures forall p :: p in r.0 <==> p in heap || p == address
    ensures forall p :: p in heap ==> r.0[p] == heap[p]
  {
    (heap[address := Fresh], address)
  }

  /** The header a decoded frame records: `channels as i32` truncates the `usize`. */
  function Header(f: NextFrame): DecoderWrapper
    requires f.Frame?
  {
    DecoderWrapper(Some(Wrap32(f.channels)), Some(f.sampleRate), Some(f.bitrate))
  }

  /** The outcome of `decodeNextFrame`: the heap afterwards, the returned array (None
      for Java null), and the exception left pending. */
  datatype Decoded = Decoded(heap: map<int64, DecoderWrapper>, samples: Option<seq<int16>>, pending: Option<Exception>)

  /** `decodeNextFrame`: field 0 throws "Decoder is closed" without decoding. At the
      end of the stream the result is null and nothing changes; another decoding
      error throws an IOException. A decoded frame overwrites all three header fields
      — every frame, not only the first — and its samples are returned as a new
      array of exactly `data.len() as i32` elements, which fails when that truncated
      length is negative (allocation) or short of the data (copy). */
  function DecodeNextFrame(heap: map<int64, DecoderWrapper>, field: int64, next: NextFrame): (r: Decoded)
    requires field != 0 ==> field in heap
    ensures field == 0 ==> r == Decoded(heap, None, Some(IllegalStateException("Decoder is closed")))
    ensures field != 0 && next.Eof? ==> r == Decoded(heap, None, None)
    ensures field != 0 && next.DecodeFailure? ==> r == Decoded(heap, None, Some(IOException("Failed to decode frame: ")))
    ensures field != 0 && next.Frame? ==>
              && (forall p :: p in r.heap <==> p in heap)
              && (forall p :: p in heap && p != field ==> r.heap[p] == heap[p])
              && r.heap[field].channels == Some(Wrap32(next.channels))
              && r.heap[field].sampleRate == Some(next.sampleRate)
              && r.heap[field].bitRate == Some(next.bitrate)
              && (r.pending.None? <==> |next.data| <= INT_MAX)
              && (r.pending.None? ==> r.samples == Some(next.data))
              && (r.pending.Some? ==> r.samples.None? && r.pending.value.RuntimeException?)
    ensures r.samples.Some? ==> field != 0 && next.Frame? && r.pending.None?
    ensures r.heap.Keys == heap.Keys
  {
    if field == 0 then
      Decoded(heap, None, Some(IllegalStateException("Decoder is closed")))
    else
      match next
      case Eof => Decoded(heap, None, None)
      case DecodeFailure => Decoded(heap, None, Some(IOException("Failed to decode frame: ")))
      case Frame(data, _, _, _) =>
        var heap' := heap[field := Header(next)];
        var length := Wrap32(|data|);
        if length < 0 then
          Decoded(heap', None, Some(RuntimeException("Failed to create short array: ")))
        else if length != |data| then
          Decoded(heap', None, Some(RuntimeException("Failed populate short array: ")))
        else
          Decoded(heap', Some(data), None)
  }

  /** `headersParsed`: false and "Decoder is closed" on field 0; otherwise whether a
      channel count has been recorded. */
  function HeadersParsed(heap: map<int64, DecoderWrapper>, field: int64): (r: Jni<bool>)
    requires field != 0 ==> field in heap
    ensures field == 0 ==> r == Jni(false, Some(IllegalStateException("Decoder is closed")))
    ensures field != 0 ==> r.pending.None? && (r.value <==> heap[field].channels.Some?)
  {
    if field == 0 then Jni(false, Some(IllegalStateException("Decoder is closed")))
    else Jni(heap[field].channels.Some?, None)
  }

  /** `unwrap_or(-1)`. */
  function OrMinusOne(x: Option<int32>): int32
  {
    if x.Some? then x.value else -1
  }

  /** `getChannelCount`: 0 and "Decoder is closed" on field 0; otherwise the recorded
      channel count, or -1 before the first frame. */
  function GetChannelCount(heap: map<int64, DecoderWrapper>, field: int64): (r: Jni<int32>)
    requires field != 0 ==> field in heap
    ensures field == 0 ==> r == Jni(0, Some(IllegalStateException("Decoder is closed")))
    ensures field != 0 ==> r.pending.None? && (heap[field].channels.None? ==> r.value == -1)
    ensures field != 0 && heap[field].channels.Some? ==> r.value == heap[field].channels.value
  {
    if field == 0 then Jni(0, Some(IllegalStateException("Decoder is closed")))
    else Jni(OrMinusOne(heap[field].channels), None)
  }

  /** `getBitRate`: 0 and "Decoder is closed" on field 0; otherwise the recorded bit
      rate, or -1 before the first frame. */
  function GetBitRate(heap: map<int64, DecoderWrapper>, field: int64): (r: Jni<int32>)
    requires field != 0 ==> field in heap
    ensures field == 0 ==> r == Jni(0, Some(IllegalStateException("Decoder is closed")))
    ensures field != 0 ==> r.pending.None? && (heap[field].bitRate.None? ==> r.value == -1)
    ensures field != 0 && heap[field].bitRate.Some? ==> r.value == heap[field].bitRate.value
  {
    if field == 0 then Jni(0, Some(IllegalStateException("Decoder is closed")))
    else Jni(OrMinusOne(heap[field].bitRate), None)
  }

  /** `getSampleRate`: 0 and "Decoder is closed" on field 0; otherwise the recorded
      sample rate, or -1 before the first frame. */
  function GetSampleRate(heap: map<int64, DecoderWrapper>, field: int64): (r: Jni<int32>)
    requires field != 0 ==> field in heap
    ensures field == 0 ==> r == Jni(0, Some(IllegalStateException("Decoder is closed")))
    ensures field != 0 ==> r.pending.None? && (heap[field].sampleRate.None? ==> r.value == -1)
    ensures field != 0 && heap[field].sampleRate.Some? ==> r.value == heap[field].sampleRate.value
  {
    if field == 0 then Jni(0, Some(IllegalStateException("Decoder is closed")))
    else Jni(OrMinusOne(heap[field].sampleRate), None)
  }

  /** `destroyDecoder`: a no-op on field 0; otherwise frees the wrapper and sets the
      field to 0. Returns the heap and the field afterwards. A non-zero field must name
      a live wrapper: `Box::from_raw` on a dangling address is undefined behaviour. */
  function DestroyDecoder(heap: map<int64, DecoderWrapper>, field: int64): (r: (map<int64, DecoderWrapper>, int64))
    requires 0 !in heap && (field != 0 ==> field in heap)
    ensures r.1 == 0
    ensures field == 0 ==> r.0 == heap
    ensures forall p :: p in r.0 <==> p in heap && p != field
    ensures forall p :: p in r.0 ==> r.0[p] == heap[p]
  {
    if field == 0 then (heap, 0) else (heap - {field}, 0)
  }

  /** Destroying clears the field, so a second destroy changes nothing. */
  lemma DestroyTwice(heap: map<int64, DecoderWrapper>, field: int64)
    requires 0 !in heap && (field != 0 ==> field in heap)
    ensures var (h, f) := DestroyDecoder(heap, field);
            DestroyDecoder(h, f) == (h, f)
  {
  }

  /** The header fields after a sequence of `decodeNextFrame` calls on one wrapper. */
  function Run(heap: map<int64, DecoderWrapper>, field: int64, replies: seq<NextFrame>): map<int64, DecoderWrapper>
    requires field != 0 && field in heap
    decreases |replies|
  {
    if |replies| == 0 then heap
    else Run(DecodeNextFrame(heap, field, replies[0]).heap, field, replies[1..])
  }

  /** The last decoded frame among the replies, if any. */
  function LastFrame(replies: seq<NextFrame>): (r: Option<NextFrame>)
    ensures r.Some? ==> r.value.Frame? && r.value in replies
  {
    if |replies| == 0 then None
    else if replies[|replies| - 1].Frame? then Some(replies[|replies| - 1])
    else LastFrame(replies[..|replies| - 1])
  }

  lemma {:induction false} LastFrameCons(f: NextFrame, rest: seq<NextFrame>)
    ensures LastFrame(rest).Some? ==> LastFrame([f] + rest) == LastFrame(rest)
    ensures LastFrame(rest).None? ==> LastFrame([f] + rest) == (if f.Frame? then Some(f) else None)
    decreases |rest|
  {
    var all := [f] + rest;
    if |rest| == 0 {
      assert all[..0] == [];
    } else {
      assert all[..|all| - 1] == [f] + rest[..|rest| - 1];
      assert all[|all| - 1] == rest[|rest| - 1];
      LastFrameCons(f, rest[..|rest| - 1]);
    }
  }

  /** After any sequence of calls the wrapper holds the header of the last decoded
      frame, whatever errors or end-of-stream replies came in between, and the
      header it started with if no frame was decoded; so `headersParsed` turns true
      with the first frame and the getters report -1 until then. */
  lemma {:induction false} RunRecordsLastFrame(heap: map<int64, DecoderWrapper>, field: int64, replies: seq<NextFrame>)
    requires field != 0 && field in heap
    ensures field in Run(heap, field, replies)
    ensures LastFrame(replies).Some? ==> Run(heap, field, replies)[field] == Header(LastFrame(replies).value)
    ensures LastFrame(replies).None? ==> Run(heap, field, replies)[field] == heap[field]
    decreases |replies|
  {
    if |replies| > 0 {
      var d := DecodeNextFrame(heap, field, replies[0]);
      RunRecordsLastFrame(d.heap, field, replies[1..]);
      assert replies == [replies[0]] + replies[1..];
      LastFrameCons(replies[0], replies[1..]);
    }
  }

  /** From a fresh wrapper, `headersParsed` holds after a sequence of calls exactly
      when one of them decoded a frame. */
  lemma HeadersParsedIffFrameDecoded(heap: map<int64, DecoderWrapper>, address: int64, replies: seq<NextFrame>)
    requires address != 0 && address !in heap
    ensures var (h, p) := CreateDecoder(heap, address);
            var after := Run(h, p, replies);
            p in after &&
            (HeadersParsed(after, p).value <==> exists k :: 0 <= k < |replies| && replies[k].Frame?)
  {
    var (h, p) := CreateDecoder(heap, address);
    RunRecordsLastFrame(h, p, replies);
    LastFrameExists(replies);
  }

  lemma {:induction false} LastFrameExists(replies: seq<NextFrame>)
    ensures LastFrame(replies).Some? <==> exists k :: 0 <= k < |replies| && replies[k].Frame?
    decreases |replies|
  {
    if |replies| > 0 {
      var init := replies[..|replies| - 1];
      LastFrameExists(init);
      if exists k :: 0 <= k < |replies| && replies[k].Frame? {
        var k :| 0 <= k < |replies| && replies[k].Frame?;
        if k < |replies| - 1 {
          assert init[k].Frame?;
        }
      }
      if exists k :: 0 <= k < |init| && init[k].Frame? {
        var k :| 0 <= k < |init| && init[k].Frame?;
        assert replies[k].Frame?;
      }
    }
  }
}
