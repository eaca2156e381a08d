/**
 LameDecoder: the JNA-based streaming decoder.

 The input stream is the sequence of chunks its successive `read(buffer)` calls
 return (each at most 1024 bytes); an empty chunk, or the end of the sequence,
 is a read that returned -1 or 0. The native hip decoder is an oracle given by
 the finite sequence of replies its successive `hip_decode1_headers` calls
 return: the sample count, the contents of the two 8192-sample PCM arrays
 afterwards, and the `mp3data` struct. Once that sequence is exhausted every
 further call reports 0 samples and leaves `mp3data` as it was.
 */
module LameDecoder {
  import opened JavaLang
  import ShortArrayBuffer
  import Audio

  const READ_BUFFER_SIZE: int := 1024
  const PCM_BUFFER_SIZE: int := 8192
  const DECODE_BUFFER_SIZE: int32 := 2048

  /** FF FB, FF F3, FF F2 (MPEG sync words) and "ID3", as Java bytes, shortest first. */
  const MAGIC_BYTES: seq<seq<int8>> := [[-1, -5], [-1, -13], [-1, -14], [0x49, 0x44, 0x33]]

  predicate StartsWith(data: seq<int8>, prefix: seq<int8>)
  {
    |prefix| <= |data| && data[..|prefix|] == prefix
  }

  /** Reference definition: the data opens with an MPEG sync word or an ID3 tag. */
  predicate IsMp3Prefix(data: seq<int8>)
  {
    exists k :: 0 <= k < |MAGIC_BYTES| && StartsWith(data, MAGIC_BYTES[k])
  }

  /** `hasMagicBytes` as written: the patterns are tried in order and the first
      pattern longer than the data ends the search with `false`. */
  function HasMagicBytesFrom(data: seq<int8>, k: nat): bool
    decreases |MAGIC_BYTES| - k
  {
    if k >= |MAGIC_BYTES| then false
    else if |data| < |MAGIC_BYTES[k]| then false
    else if data[..|MAGIC_BYTES[k]|] == MAGIC_BYTES[k] then true
    else HasMagicBytesFrom(data, k + 1)
  }

  function HasMagicBytes(data: seq<int8>): bool
  {
    HasMagicBytesFrom(data, 0)
  }

  lemma {:induction false} HasMagicBytesFromIff(data: seq<int8>, k: nat)
    requires k <= |MAGIC_BYTES|
    ensures HasMagicBytesFrom(data, k) <==> exists m :: k <= m < |MAGIC_BYTES| && StartsWith(data, MAGIC_BYTES[m])
    decreases |MAGIC_BYTES| - k
  {
    if k < |MAGIC_BYTES| {
      if |data| < |MAGIC_BYTES[k]| {
        forall m | k <= m < |MAGIC_BYTES|
          ensures !StartsWith(data, MAGIC_BYTES[m])
        {
          assert |MAGIC_BYTES[k]| <= |MAGIC_BYTES[m]|;
        }
      } else {
        HasMagicBytesFromIff(data, k + 1);
      }
    }
  }

  /** The early `return false` is harmless: because the patterns are listed by
      non-decreasing length, the loop accepts exactly the data with a magic prefix. */
  lemma HasMagicBytesCorrect(data: seq<int8>)
    ensures HasMagicBytes(data) <==> IsMp3Prefix(data)
  {
    HasMagicBytesFromIff(data, 0);
  }

  /** The 1024-byte read buffer after the first read: the bytes read, then the zeros of the fresh array. */
  function FirstBuffer(chunk: seq<int8>): (b: seq<int8>)
    requires |chunk| <= READ_BUFFER_SIZE
    ensures |b| == READ_BUFFER_SIZE
  {
    chunk + Filled<int8>(READ_BUFFER_SIZE - |chunk|, 0)
  }

  /** `hasMagicBytes` inspects the whole buffer, not only the bytes read; since no
      magic byte is 0, the zero padding never completes a magic prefix. */
  lemma PaddingKeepsMagic(chunk: seq<int8>)
    requires |chunk| <= READ_BUFFER_SIZE
    ensures HasMagicBytes(FirstBuffer(chunk)) <==> IsMp3Prefix(chunk)
  {
    var b := FirstBuffer(chunk);
    HasMagicBytesCorrect(b);
    forall k | 0 <= k < |MAGIC_BYTES|
      ensures StartsWith(b, MAGIC_BYTES[k]) <==> StartsWith(chunk, MAGIC_BYTES[k])
    {
      var m := MAGIC_BYTES[k];
      if |m| <= |chunk| {
        assert b[..|m|] == chunk[..|m|];
      } else {
        assert b[|chunk|] == 0 != m[|chunk|];
      }
    }
  }

  /** The fields of `Lame.Mp3Data` that the decoder reads. */
  datatype Mp3Data = Mp3Data(headerParsed: int32, stereo: int32, sampleRate: int32, bitRate: int32, frameSize: int32)

  /** A freshly constructed JNA structure is all zeros. */
  const INITIAL_DATA: Mp3Data := Mp3Data(0, 0, 0, 0, 0)

  /** One reply of `hip_decode1_headers`. */
  datatype HipFrame = HipFrame(samplesRead: int32, left: seq<int16>, right: seq<int16>, data: Mp3Data)

  predicate ValidFrame(f: HipFrame)
  {
    |f.left| == PCM_BUFFER_SIZE && |f.right| == PCM_BUFFER_SIZE
  }

  predicate ValidCodec(codec: seq<HipFrame>)
  {
    forall j :: 0 <= j < |codec| ==> ValidFrame(codec[j])
  }

  /** The reply to the `j`-th native call; `data` is the struct as the previous call left it. */
  function Response(codec: seq<HipFrame>, j: nat, data: Mp3Data): (f: HipFrame)
    requires ValidCodec(codec)
    ensures ValidFrame(f)
  {
    if j < |codec| then codec[j]
    else HipFrame(0, Filled<int16>(PCM_BUFFER_SIZE, 0), Filled<int16>(PCM_BUFFER_SIZE, 0), data)
  }

  /** Stereo output layout: out[2i] = left[i], out[2i+1] = right[i]. */
  function Interleave(left: seq<int16>, right: seq<int16>): (r: seq<int16>)
    requires |left| == |right|
    ensures |r| == 2 * |left|
    ensures forall i :: 0 <= i < |left| ==> r[2 * i] == left[i] && r[2 * i + 1] == right[i]
    decreases |left|
  {
    if |left| == 0 then []
    else
      var rest := Interleave(left[1..], right[1..]);
      var r := [left[0], right[0]] + rest;
      assert forall i :: 1 <= i < |left| ==> r[2 * i] == rest[2 * (i - 1)] && r[2 * i + 1] == rest[2 * (i - 1) + 1];
      r
  }

  /** The even positions of an interleaved stream (the left channel). */
  function Evens(s: seq<int16>): seq<int16>
    requires |s| % 2 == 0
  {
    if |s| == 0 then [] else [s[0]] + Evens(s[2..])
  }

  /** The odd positions of an interleaved stream (the right channel). */
  function Odds(s: seq<int16>): seq<int16>
    requires |s| % 2 == 0
  {
    if |s| == 0 then [] else [s[1]] + Odds(s[2..])
  }

  /** Splitting an interleaved frame recovers both channels. */
  lemma {:induction false} InterleaveRoundTrip(left: seq<int16>, right: seq<int16>)
    requires |left| == |right|
    ensures Evens(Interleave(left, right)) == left && Odds(Interleave(left, right)) == right
    decreases |left|
  {
    if |left| > 0 {
      var r := Interleave(left, right);
      assert r[2..] == Interleave(left[1..], right[1..]);
      InterleaveRoundTrip(left[1..], right[1..]);
    }
  }

  /** Interleaving the two halves of an even-length stream rebuilds it. */
  lemma {:induction false} DeinterleaveRoundTrip(s: seq<int16>)
    requires |s| % 2 == 0
    ensures |Evens(s)| == |Odds(s)| == |s| / 2
    ensures Interleave(Evens(s), Odds(s)) == s
    decreases |s|
  {
    if |s| > 0 {
      DeinterleaveRoundTrip(s[2..]);
      assert s == [s[0], s[1]] + s[2..];
    }
  }

  /** The interleaving loop of `decode`, over the 16384-sample scratch array. */
  method InterleaveFrame(left: seq<int16>, right: seq<int16>, samplesRead: int32) returns (out: seq<int16>)
    requires |left| == PCM_BUFFER_SIZE && |right| == PCM_BUFFER_SIZE
    requires 0 <= samplesRead <= PCM_BUFFER_SIZE
    ensures out == Interleave(left[..samplesRead], right[..samplesRead])
  {
    var interleaved := new int16[|left| + |right|];
    var i: int32 := 0;
    while i < samplesRead
      invariant 0 <= i <= samplesRead
      invariant forall k :: 0 <= k < i ==> interleaved[2 * k] == left[k] && interleaved[2 * k + 1] == right[k]
    {
      interleaved[i * 2] := left[i];
      interleaved[i * 2 + 1] := right[i];
      i := i + 1;
    }
    out := interleaved[..samplesRead * 2];
    var expected := Interleave(left[..samplesRead], right[..samplesRead]);
    forall p | 0 <= p < |out|
      ensures out[p] == expected[p]
    {
      var k := p / 2;
      assert k < samplesRead;
      if p % 2 == 0 {
        assert p == 2 * k;
        assert out[p] == interleaved[2 * k] == left[k] == left[..samplesRead][k] == expected[2 * k];
      } else {
        assert p == 2 * k + 1;
        assert out[p] == interleaved[2 * k + 1] == right[k] == right[..samplesRead][k] == expected[2 * k + 1];
      }
    }
  }

  /** What one positive reply hands to the consumer: the left array as is when
      `stereo == 1`, otherwise both arrays interleaved; more samples than the
      8192-sample arrays hold ends in an IndexOutOfBoundsException. */
  function FrameSamples(f: HipFrame): (r: Outcome<seq<int16>>)
    requires f.samplesRead > 0 && ValidFrame(f)
    ensures r.Ok? <==> f.samplesRead <= PCM_BUFFER_SIZE
    ensures r.Thrown? ==> r.exception == IndexOutOfBoundsException
    ensures r.Ok? && f.data.stereo == 1 ==> r.value == f.left[..f.samplesRead]
    ensures r.Ok? && f.data.stereo != 1 ==>
              |r.value| == 2 * f.samplesRead &&
              Evens(r.value) == f.left[..f.samplesRead] && Odds(r.value) == f.right[..f.samplesRead]
    ensures r.Ok? ==> |r.value| <= 2 * PCM_BUFFER_SIZE
  {
    if f.samplesRead > PCM_BUFFER_SIZE then Thrown(IndexOutOfBoundsException)
    else if f.data.stereo == 1 then Ok(f.left[..f.samplesRead])
    else
      InterleaveRoundTrip(f.left[..f.samplesRead], f.right[..f.samplesRead]);
      Ok(Interleave(f.left[..f.samplesRead], f.right[..f.samplesRead]))
  }

  /** A reply the loop accepts without throwing: no samples, or samples with a parsed header that fit the arrays. */
  predicate Clean(f: HipFrame)
  {
    f.samplesRead <= 0 || (f.data.headerParsed != 0 && f.samplesRead <= PCM_BUFFER_SIZE)
  }

  /** The exception an unclean reply raises. */
  function FrameError(f: HipFrame): Exception
  {
    if f.data.headerParsed == 0 then IOException("Failed to parse MP3 header") else IndexOutOfBoundsException
  }

  /** The chunks the consumer receives for a run of clean replies, in order. */
  function Emissions(frames: seq<HipFrame>): (r: seq<seq<int16>>)
    requires forall k :: 0 <= k < |frames| ==> ValidFrame(frames[k])
    ensures forall k :: 0 <= k < |r| ==> |r[k]| <= 2 * PCM_BUFFER_SIZE
  {
    if |frames| == 0 then []
    else
      var f := frames[0];
      (if f.samplesRead > 0 && FrameSamples(f).Ok? then [FrameSamples(f).value] else []) + Emissions(frames[1..])
  }

  lemma {:induction false} EmissionsConcat(a: seq<HipFrame>, b: seq<HipFrame>)
    requires forall k :: 0 <= k < |a| ==> ValidFrame(a[k])
    requires forall k :: 0 <= k < |b| ==> ValidFrame(b[k])
    ensures Emissions(a + b) == Emissions(a) + Emissions(b)
    decreases |a|
  {
    if |a| == 0 {
      assert a + b == b;
    } else {
      assert (a + b)[0] == a[0];
      assert (a + b)[1..] == a[1..] + b;
      EmissionsConcat(a[1..], b);
    }
  }


  /** The replies of native calls `lo` up to (not including) `hi` that come from the oracle. */
  function Window(codec: seq<HipFrame>, lo: nat, hi: nat): (w: seq<HipFrame>)
    requires ValidCodec(codec)
    requires lo <= hi
    ensures forall k :: 0 <= k < |w| ==> ValidFrame(w[k])
  {
    codec[Min(lo, |codec|)..Min(hi, |codec|)]
  }

  lemma WindowSplit(codec: seq<HipFrame>, lo: nat, mid: nat, hi: nat)
    requires ValidCodec(codec)
    requires lo <= mid <= hi
    ensures Window(codec, lo, hi) == Window(codec, lo, mid) + Window(codec, mid, hi)
  {
  }

  /** The inputs of the native calls with at least one byte, in order. */
  function NonEmpty(fed: seq<seq<int8>>): seq<seq<int8>>
  {
    if |fed| == 0 then [] else (if |fed[0]| > 0 then [fed[0]] else []) + NonEmpty(fed[1..])
  }

  lemma {:induction false} NonEmptyConcat(a: seq<seq<int8>>, b: seq<seq<int8>>)
    ensures NonEmpty(a + b) == NonEmpty(a) + NonEmpty(b)
    decreases |a|
  {
    if |a| == 0 {
      assert a + b == b;
    } else {
      assert (a + b)[0] == a[0];
      assert (a + b)[1..] == a[1..] + b;
      NonEmptyConcat(a[1..], b);
    }
  }

  lemma {:induction false} NonEmptyOfEmpties(fed: seq<seq<int8>>)
    requires forall k :: 0 <= k < |fed| ==> fed[k] == []
    ensures NonEmpty(fed) == []
    decreases |fed|
  {
    if |fed| > 0 {
      NonEmptyOfEmpties(fed[1..]);
    }
  }

  /** The chunks that reads `i`, `i+1`, ... return before the first end-of-stream. */
  function Available(stream: seq<seq<int8>>, i: nat): seq<seq<int8>>
    decreases |stream| - i
  {
    if i >= |stream| || |stream[i]| == 0 then [] else [stream[i]] + Available(stream, i + 1)
  }

  /** The state the loops carry: the chunks handed to the consumer, the input of
      every native call, the index of the next native call, the `mp3data` struct,
      and the exception that ended the loop, if any. */
  datatype Loop = Loop(emitted: seq<seq<int16>>, fed: seq<seq<int8>>, next: nat, data: Mp3Data, error: Option<Exception>)

  /** Index bound of the replies the loop accepted: all of them, or all but the one that threw. */
  function Accepted(r: Loop): int
  {
    if r.error.Some? then r.next - 1 else r.next
  }

  /** A loop that started at native call `j` accepted every reply before
      `Accepted(r)`, handed the consumer exactly their samples in order, and, if it
      threw, threw because of the reply just after them. */
  predicate Faithful(codec: seq<HipFrame>, j: nat, r: Loop)
    requires ValidCodec(codec)
  {
    && j <= Accepted(r) <= r.next
    && (r.error.Some? ==>
          r.next - 1 < |codec| && !Clean(codec[r.next - 1]) && r.error == Some(FrameError(codec[r.next - 1])))
    && (forall k :: Min(j, |codec|) <= k < Min(Accepted(r), |codec|) ==> Clean(codec[k]))
    && r.emitted == Emissions(Window(codec, j, Accepted(r)))
  }

  /** The inner loop for one chunk: the chunk is passed once, then 0 bytes, until
      hip reports no samples or a reply makes it throw. */
  function Drain(codec: seq<HipFrame>, j: nat, input: seq<int8>, data: Mp3Data): (r: Loop)
    requires ValidCodec(codec)
    ensures |r.fed| >= 1 && r.fed[0] == input
    ensures forall k :: 1 <= k < |r.fed| ==> r.fed[k] == []
    ensures r.next == j + |r.fed|
    decreases |codec| - j
  {
    var f := Response(codec, j, data);
    if f.samplesRead <= 0 then
      Loop([], [input], j + 1, f.data, None)
    else if f.data.headerParsed == 0 then
      Loop([], [input], j + 1, f.data, Some(IOException("Failed to parse MP3 header")))
    else
      match FrameSamples(f)
      case Thrown(e) => Loop([], [input], j + 1, f.data, Some(e))
      case Ok(out) =>
        var rest := Drain(codec, j + 1, [], f.data);
        Loop([out] + rest.emitted, [input] + rest.fed, rest.next, rest.data, rest.error)
  }

  /** The inner loop emits exactly the samples of the replies it accepts, stops at the
      first reply without samples, and throws at the first reply it cannot accept. */
  lemma {:induction false} DrainFaithful(codec: seq<HipFrame>, j: nat, input: seq<int8>, data: Mp3Data)
    requires ValidCodec(codec)
    ensures Faithful(codec, j, Drain(codec, j, input, data))
    decreases |codec| - j
  {
    var r := Drain(codec, j, input, data);
    var f := Response(codec, j, data);
    if f.samplesRead <= 0 {
      assert r == Loop([], [input], j + 1, f.data, None);
      DrainStops(codec, j, f);
    } else if !Clean(f) {
      assert r == Loop([], [input], j + 1, f.data, Some(FrameError(f)));
      assert Window(codec, j, j) == [];
    } else {
      var rest := Drain(codec, j + 1, [], f.data);
      var out := FrameSamples(f).value;
      assert r == Loop([out] + rest.emitted, [input] + rest.fed, rest.next, rest.data, rest.error);
      DrainFaithful(codec, j + 1, [], f.data);
      DrainStep(codec, j, f, out, rest);
    }
  }

  /** The inner loop ends normally only at a reply without samples (or past the oracle's script). */
  lemma {:induction false} DrainEndsAtEmptyReply(codec: seq<HipFrame>, j: nat, input: seq<int8>, data: Mp3Data)
    requires ValidCodec(codec)
    ensures var r := Drain(codec, j, input, data);
            r.error.None? ==> r.next - 1 >= |codec| || codec[r.next - 1].samplesRead <= 0
    decreases |codec| - j
  {
    var f := Response(codec, j, data);
    if f.samplesRead > 0 && Clean(f) {
      DrainEndsAtEmptyReply(codec, j + 1, [], f.data);
    }
  }

  /** A reply without samples ends the inner loop cleanly and emits nothing. */
  lemma DrainStops(codec: seq<HipFrame>, j: nat, f: HipFrame)
    requires ValidCodec(codec)
    requires f.samplesRead <= 0
    requires j < |codec| ==> codec[j] == f
    ensures forall k :: Min(j, |codec|) <= k < Min(j + 1, |codec|) ==> Clean(codec[k])
    ensures Emissions(Window(codec, j, j + 1)) == []
  {
    if j < |codec| {
      assert Window(codec, j, j + 1) == [f];
    } else {
      assert Window(codec, j, j + 1) == [];
    }
  }

  /** One accepted reply followed by a faithful rest is faithful. */
  lemma DrainStep(codec: seq<HipFrame>, j: nat, f: HipFrame, out: seq<int16>, rest: Loop)
    requires ValidCodec(codec)
    requires j < |codec| && codec[j] == f && f.samplesRead > 0 && Clean(f)
    requires FrameSamples(f) == Ok(out)
    requires Faithful(codec, j + 1, rest)
    ensures Faithful(codec, j, Loop([out] + rest.emitted, [[]] + rest.fed, rest.next, rest.data, rest.error))
  {
    WindowSplit(codec, j, j + 1, Accepted(rest));
    assert Window(codec, j, j + 1) == [f];
    EmissionsConcat([f], Window(codec, j + 1, Accepted(rest)));
    assert Emissions([f]) == [out];
  }

  /** The outer loop from read `i` on: each chunk read is drained; end of stream or an exception stops it. */
  function Feed(stream: seq<seq<int8>>, i: nat, codec: seq<HipFrame>, j: nat, data: Mp3Data): (r: Loop)
    requires ValidCodec(codec)
    ensures r.next == j + |r.fed|
    decreases |stream| - i
  {
    if i >= |stream| || |stream[i]| == 0 then
      Loop([], [], j, data, None)
    else
      var d := Drain(codec, j, stream[i], data);
      if d.error.Some? then
        d
      else
        var rest := Feed(stream, i + 1, codec, d.next, d.data);
        Loop(d.emitted + rest.emitted, d.fed + rest.fed, rest.next, rest.data, rest.error)
  }

  lemma {:induction false} FeedFaithful(stream: seq<seq<int8>>, i: nat, codec: seq<HipFrame>, j: nat, data: Mp3Data)
    requires ValidCodec(codec)
    ensures Faithful(codec, j, Feed(stream, i, codec, j, data))
    decreases |stream| - i
  {
    var r := Feed(stream, i, codec, j, data);
    if i >= |stream| || |stream[i]| == 0 {
      assert r == Loop([], [], j, data, None);
      assert Window(codec, j, j) == [];
    } else {
      var d := Drain(codec, j, stream[i], data);
      DrainFaithful(codec, j, stream[i], data);
      if d.error.None? {
        var rest := Feed(stream, i + 1, codec, d.next, d.data);
        assert r == Loop(d.emitted + rest.emitted, d.fed + rest.fed, rest.next, rest.data, rest.error);
        FeedFaithful(stream, i + 1, codec, d.next, d.data);
        FaithfulSequence(codec, j, d, rest);
      } else {
        assert r == d;
      }
    }
  }

  /** A loop that ended normally followed by a faithful loop is faithful. */
  lemma FaithfulSequence(codec: seq<HipFrame>, j: nat, d: Loop, rest: Loop)
    requires ValidCodec(codec)
    requires Faithful(codec, j, d) && d.error.None?
    requires Faithful(codec, d.next, rest)
    ensures Faithful(codec, j, Loop(d.emitted + rest.emitted, d.fed + rest.fed, rest.next, rest.data, rest.error))
  {
    WindowSplit(codec, j, d.next, Accepted(rest));
    EmissionsConcat(Window(codec, j, d.next), Window(codec, d.next, Accepted(rest)));
  }

  /** Every chunk read is passed to the native decoder exactly once, in order, and
      every other native call gets 0 bytes; an exception cuts the list short. */
  lemma {:induction false} FeedPassesEachChunkOnce(stream: seq<seq<int8>>, i: nat, codec: seq<HipFrame>, j: nat, data: Mp3Data)
    requires ValidCodec(codec)
    ensures NonEmpty(Feed(stream, i, codec, j, data).fed) <= Available(stream, i)
    ensures Feed(stream, i, codec, j, data).error.None? ==>
              NonEmpty(Feed(stream, i, codec, j, data).fed) == Available(stream, i)
    decreases |stream| - i
  {
    if i < |stream| && |stream[i]| > 0 {
      var d := Drain(codec, j, stream[i], data);
      assert d.fed == [stream[i]] + d.fed[1..];
      NonEmptyOfEmpties(d.fed[1..]);
      NonEmptyConcat([stream[i]], d.fed[1..]);
      assert NonEmpty([stream[i]]) == [stream[i]];
      if d.error.None? {
        var rest := Feed(stream, i + 1, codec, d.next, d.data);
        FeedPassesEachChunkOnce(stream, i + 1, codec, d.next, d.data);
        NonEmptyConcat(d.fed, rest.fed);
      }
    }
  }

  /** What one call of `decode(ShortConsumer)` does. */
  datatype DecodeRun = DecodeRun(
    emitted: seq<seq<int16>>,
    fed: seq<seq<int8>>,
    data: Mp3Data,
    nativeOpened: bool,
    nativeClosed: bool,
    streamClosed: bool,
    error: Option<Exception>)

  predicate ValidStream(stream: seq<seq<int8>>)
  {
    forall i :: 0 <= i < |stream| ==> |stream[i]| <= READ_BUFFER_SIZE
  }

  function FirstRead(stream: seq<seq<int8>>): seq<int8>
  {
    if |stream| == 0 then [] else stream[0]
  }

  /** `decode(ShortConsumer)`: an empty first read returns at once; a first chunk
      without a magic prefix is rejected before any native resource is allocated;
      otherwise the first chunk is only inspected, the native decoder is fed every
      later chunk exactly once and in order, and the consumer receives the samples
      of every accepted reply. A normal end releases the native handles and closes
      the stream; an exception skips both. */
  function Decode(stream: seq<seq<int8>>, codec: seq<HipFrame>): (r: DecodeRun)
    requires ValidStream(stream) && ValidCodec(codec)
    ensures |FirstRead(stream)| == 0 ==> r == DecodeRun([], [], INITIAL_DATA, false, false, false, None)
    ensures r.nativeOpened <==> |FirstRead(stream)| > 0 && IsMp3Prefix(stream[0])
    ensures r.error == Some(IOException("Invalid file format")) <==> |FirstRead(stream)| > 0 && !IsMp3Prefix(stream[0])
    ensures !r.nativeOpened ==> r.fed == [] && r.emitted == []
    ensures r.nativeOpened ==> NonEmpty(r.fed) <= Available(stream, 1)
    ensures r.nativeOpened && r.error.None? ==>
              NonEmpty(r.fed) == Available(stream, 1) && r.nativeClosed && r.streamClosed
    ensures r.error.Some? ==> !r.nativeClosed && !r.streamClosed
    ensures r.nativeOpened ==> Faithful(codec, 0, Loop(r.emitted, r.fed, |r.fed|, r.data, r.error))
  {
    if |FirstRead(stream)| == 0 then
      DecodeRun([], [], INITIAL_DATA, false, false, false, None)
    else
      PaddingKeepsMagic(stream[0]);
      if !HasMagicBytes(FirstBuffer(stream[0])) then
        DecodeRun([], [], INITIAL_DATA, false, false, false, Some(IOException("Invalid file format")))
      else
        var l := Feed(stream, 1, codec, 0, INITIAL_DATA);
        FeedFaithful(stream, 1, codec, 0, INITIAL_DATA);
        FeedPassesEachChunkOnce(stream, 1, codec, 0, INITIAL_DATA);
        assert l == Loop(l.emitted, l.fed, |l.fed|, l.data, l.error);
        DecodeRun(l.emitted, l.fed, l.data, true, l.error.None?, l.error.None?, l.error)
  }

  /** `decode()`: the consumer is `ShortArrayBuffer.write` on a buffer of initial size 2048. */
  function DecodeToArray(stream: seq<seq<int8>>, codec: seq<HipFrame>): (r: Outcome<seq<int16>>)
    requires ValidStream(stream) && ValidCodec(codec)
    ensures r.Ok? <==> Decode(stream, codec).error.None? && |Flatten(Decode(stream, codec).emitted)| <= INT_MAX
    ensures r.Ok? ==> r.value == Flatten(Decode(stream, codec).emitted)
  {
    var run := Decode(stream, codec);
    var b := ShortArrayBuffer.New(DECODE_BUFFER_SIZE).value;
    ShortArrayBuffer.WriteAllConcatenates(b, run.emitted);
    match ShortArrayBuffer.WriteAll(b, run.emitted)
    case Thrown(e) => Thrown(e)
    case Ok(filled) =>
      if run.error.Some? then Thrown(run.error.value)
      else Ok(ShortArrayBuffer.ToShortArray(filled))
  }

  /** `headerParsed()`. */
  predicate HeaderParsed(data: Mp3Data)
  {
    data.headerParsed == 1
  }

  /** `format()`: null until the header is parsed, then the same format the `Audio`
      default derives from (channels, sample rate, bit rate). */
  function Format(data: Mp3Data): (r: Option<Audio.AudioFormat>)
    ensures r.None? <==> !HeaderParsed(data)
    ensures r.Some? ==> r.value == Audio.CreateAudioFormat(Audio.AudioInfo(data.stereo, data.sampleRate, data.bitRate))
    ensures r.Some? ==> r.value.sampleSizeInBits == 16 && r.value.channels == data.stereo
  {
    if !HeaderParsed(data) then None
    else
      Some(Audio.AudioFormat(Audio.PcmSigned, data.sampleRate, Audio.SampleSizeInBits(), data.stereo,
                             Wrap32(Audio.SampleSizeInBytes() * data.stereo), data.sampleRate, false))
  }
}
