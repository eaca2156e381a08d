/**
 The part of the LAME library interface that the three encoder adapters use,
 as observable events. LAME itself is foreign code: every call that returns a
 value takes that value as a reply from outside, and the model records the
 calls (and the writes and close of the output stream) in the order made, so
 that protocol properties — what is passed to LAME, in which order the close
 sequence runs, which bytes reach the sink — are statements about that trace.
 */
module LameApi {
  import opened JavaLang

  /** `MPEG_mode` values (the same in lame.h and in the JNA `LameMode` constants). */
  const JOINT_STEREO: int32 := 1
  const MONO: int32 := 3

  /** Size of the buffer handed to `lame_encode_flush`. */
  const FLUSH_BUFFER_SIZE: int32 := 7200

  /** One observable step of an encoder adapter. `LameInit(false)` is a `lame_init`
      that returned NULL. */
  datatype Event =
    | LameInit(handle: bool)
    | SetNumChannels(channels: int32)
    | SetInSampleRate(sampleRate: int32)
    | SetBitRate(bitRate: int32)
    | SetMode(mode: int32)
    | SetQuality(quality: int32)
    | InitParams
    | EncodeBuffer(numSamples: int32, bufferSize: int32)
    | EncodeBufferInterleaved(numSamples: int32, bufferSize: int32)
    | EncodeFlush(bufferSize: int32)
    | LameClose
    | SinkWrite(bytes: seq<int8>)
    | SinkClose

  /** What an encode or flush call of LAME returns: its int result and the bytes it
      leaves at the start of the output buffer. */
  datatype LameReply = LameReply(result: int32, output: seq<int8>)

  /** The first `n` bytes of the output buffer after a LAME call (bytes LAME did not
      write are the zeros the buffer was allocated with). */
  function Take(output: seq<int8>, n: nat): (r: seq<int8>)
    ensures |r| == n
    ensures forall i :: 0 <= i < n ==> r[i] == (if i < |output| then output[i] else 0)
  {
    if n <= |output| then output[..n] else output + Filled<int8>(n - |output|, 0)
  }

  /** The configuration sequence every adapter runs right after `lame_init`. */
  function Configure(channels: int32, sampleRate: int32, bitRate: int32, mode: int32, quality: int32): seq<Event>
  {
    [SetNumChannels(channels), SetInSampleRate(sampleRate), SetBitRate(bitRate), SetMode(mode), SetQuality(quality), InitParams]
  }

  /** The bytes a trace has written to the output stream, in order. */
  function Written(trace: seq<Event>): seq<int8>
  {
    if |trace| == 0 then []
    else (if trace[0].SinkWrite? then trace[0].bytes else []) + Written(trace[1..])
  }

  lemma {:induction false} WrittenConcat(a: seq<Event>, b: seq<Event>)
    ensures Written(a + b) == Written(a) + Written(b)
    decreases |a|
  {
    if |a| == 0 {
      assert a + b == b;
    } else {
      assert (a + b)[0] == a[0];
      assert (a + b)[1..] == a[1..] + b;
      WrittenConcat(a[1..], b);
    }
  }

  /** The number of LAME handles a trace opens minus the number it closes. */
  function OpenHandles(trace: seq<Event>): int
  {
    if |trace| == 0 then 0
    else (if trace[0].LameInit? && trace[0].handle then 1 else if trace[0].LameClose? then -1 else 0) + OpenHandles(trace[1..])
  }

  lemma {:induction false} OpenHandlesConcat(a: seq<Event>, b: seq<Event>)
    ensures OpenHandles(a + b) == OpenHandles(a) + OpenHandles(b)
    decreases |a|
  {
    if |a| == 0 {
      assert a + b == b;
    } else {
      assert (a + b)[0] == a[0];
      assert (a + b)[1..] == a[1..] + b;
      OpenHandlesConcat(a[1..], b);
    }
  }

  /** Events other than opening and closing a handle leave the count alone. */
  lemma {:induction false} OpenHandlesOfOthers(trace: seq<Event>)
    requires forall k :: 0 <= k < |trace| ==> !trace[k].LameInit? && !trace[k].LameClose?
    ensures OpenHandles(trace) == 0
    decreases |trace|
  {
    if |trace| > 0 {
      OpenHandlesOfOthers(trace[1..]);
    }
  }

  /** The mode a trace last passed to `lame_set_mode`, if any. */
  function ModeSet(trace: seq<Event>): Option<int32>
  {
    if |trace| == 0 then None
    else if trace[|trace| - 1].SetMode? then Some(trace[|trace| - 1].mode)
    else ModeSet(trace[..|trace| - 1])
  }

  /** The events of a LAME initialisation, with the reply of `lame_init_params`. */
  function InitEvents(channels: int32, sampleRate: int32, bitRate: int32, mode: int32, quality: int32): seq<Event>
  {
    [LameInit(true)] + Configure(channels, sampleRate, bitRate, mode, quality)
  }

  lemma InitEventsFacts(channels: int32, sampleRate: int32, bitRate: int32, mode: int32, quality: int32)
    ensures OpenHandles(InitEvents(channels, sampleRate, bitRate, mode, quality)) == 1
    ensures ModeSet(InitEvents(channels, sampleRate, bitRate, mode, quality)) == Some(mode)
    ensures ModeSet(InitEvents(channels, sampleRate, bitRate, mode, quality) + [LameClose]) == Some(mode)
    ensures OpenHandles(InitEvents(channels, sampleRate, bitRate, mode, quality) + [LameClose]) == 0
  {
    var t := InitEvents(channels, sampleRate, bitRate, mode, quality);
    assert t == [LameInit(true), SetNumChannels(channels), SetInSampleRate(sampleRate), SetBitRate(bitRate),
                 SetMode(mode), SetQuality(quality), InitParams];
    assert t[..6] == [LameInit(true), SetNumChannels(channels), SetInSampleRate(sampleRate), SetBitRate(bitRate),
                      SetMode(mode), SetQuality(quality)];
    assert t[..6][..5] == t[..5];
    assert ModeSet(t[..5]) == Some(mode);
    assert ModeSet(t[..6]) == Some(mode);
    OpenHandlesConcat([LameInit(true)], t[1..]);
    OpenHandlesOfOthers(t[1..]);
    OpenHandlesConcat(t, [LameClose]);
    assert (t + [LameClose])[..|t|] == t;
  }

  /** The closing sequence every adapter ends with on success. */
  function CloseEvents(flushed: seq<int8>): seq<Event>
  {
    [EncodeFlush(FLUSH_BUFFER_SIZE), SinkWrite(flushed), LameClose, SinkClose]
  }

  /** The closing sequence writes exactly the flushed bytes and releases one handle. */
  lemma CloseEventsFacts(flushed: seq<int8>)
    ensures Written(CloseEvents(flushed)) == flushed
    ensures OpenHandles(CloseEvents(flushed)) == -1
  {
    var t := CloseEvents(flushed);
    assert t[1..] == [SinkWrite(flushed), LameClose, SinkClose];
    assert t[1..][1..] == [LameClose, SinkClose];
    assert t[1..][1..][1..] == [SinkClose];
    var t1, t2, t3 := t[1..], t[1..][1..], t[1..][1..][1..];
    assert t3[1..] == [];
    assert Written(t3) == [] && OpenHandles(t3) == 0;
    assert Written(t2) == [] && OpenHandles(t2) == -1;
    assert Written(t1) == flushed && OpenHandles(t1) == -1;
  }

  /** The worst-case MP3 buffer size `ceil(1.25 * n + 7200)` in exact integer form.
      The double computation of the sources is exact here: 1.25 is a binary
      fraction and 1.25 * n stays far below 2^53 for any int n. */
  function Estimate(n: nat): (r: nat)
    ensures 4 * (r - 7200) >= 5 * n && 4 * (r - 7200) < 5 * n + 4
  {
    7200 + (5 * n + 3) / 4
  }

  /** `Estimate` is the least integer at or above 1.25 * n + 7200, i.e. the ceiling. */
  lemma EstimateIsCeiling(n: nat, m: int)
    requires 4 * (m - 7200) >= 5 * n
    ensures Estimate(n) <= m
  {
  }

  /** The estimate grows with the sample count. */
  lemma EstimateMonotone(a: nat, b: nat)
    requires a <= b
    ensures Estimate(a) <= Estimate(b)
  {
  }
}
