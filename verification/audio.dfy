/**
 The `Audio` capability: read-only channel count, sample rate and bit rate,
 with defaults for the sample size (2 bytes, 16 bits) and for the derived
 javax.sound.sampled.AudioFormat (signed PCM, little-endian, frame rate equal to
 sample rate, frame size = sample bytes * channels in Java int arithmetic).

 The byte layout such a format describes is given here as an independent
 reference (`PcmBytes` / `PcmSamples`), so that the derived frame size can be
 checked against what one frame of interleaved samples actually occupies.
 */
module Audio {
  import opened JavaLang

  datatype Encoding = PcmSigned

  /** javax.sound.sampled.AudioFormat as the adapter constructs it. Sample and
      frame rates are kept as the int they are built from. */
  datatype AudioFormat = AudioFormat(
    encoding: Encoding,
    sampleRate: int32,
    sampleSizeInBits: int32,
    channels: int32,
    frameSize: int32,
    frameRate: int32,
    bigEndian: bool)

  /** The three abstract accessors of the interface. */
  datatype AudioInfo = AudioInfo(channelCount: int32, sampleRate: int32, bitRate: int32)

  /** Default `getSampleSizeInBytes()`. */
  function SampleSizeInBytes(): int32 { 2 }

  /** Default `getSampleSizeInBits()`: bytes * 8. */
  function SampleSizeInBits(): (r: int32)
    ensures r == 16
  {
    SampleSizeInBytes() * 8
  }

  /** Default `createAudioFormat()`. */
  function CreateAudioFormat(a: AudioInfo): (f: AudioFormat)
    ensures f.encoding == PcmSigned && !f.bigEndian
    ensures f.sampleSizeInBits == 16
    ensures f.channels == a.channelCount
    ensures f.sampleRate == a.sampleRate && f.frameRate == a.sampleRate
    ensures -0x4000_0000 <= a.channelCount < 0x4000_0000 ==> f.frameSize == 2 * a.channelCount
  {
    AudioFormat(PcmSigned, a.sampleRate, SampleSizeInBits(), a.channelCount,
                Wrap32(SampleSizeInBytes() * a.channelCount), a.sampleRate, false)
  }

  /** Java byte for an unsigned value 0..255. */
  function SignedByte(u: int): int8
    requires 0 <= u < 256
  {
    if u < 128 then u else u - 256
  }

  /** One 16-bit signed little-endian sample: low byte first. */
  function SampleBytes(s: int16): (r: seq<int8>)
    ensures |r| == SampleSizeInBytes()
  {
    [SignedByte(s % 256), (s - s % 256) / 256]
  }

  function SampleFromBytes(lo: int8, hi: int8): int16
  {
    hi * 256 + lo % 256
  }

  /** The samples laid out as the derived format describes. */
  function PcmBytes(samples: seq<int16>): (r: seq<int8>)
    ensures |r| == |samples| * SampleSizeInBytes()
  {
    if |samples| == 0 then [] else SampleBytes(samples[0]) + PcmBytes(samples[1..])
  }

  function PcmSamples(bytes: seq<int8>): seq<int16>
    requires |bytes| % 2 == 0
  {
    if |bytes| == 0 then [] else [SampleFromBytes(bytes[0], bytes[1])] + PcmSamples(bytes[2..])
  }

  /** Reading the bytes back gives the samples: the encoding the format names is lossless. */
  lemma {:induction false} PcmRoundTrip(samples: seq<int16>)
    ensures PcmSamples(PcmBytes(samples)) == samples
  {
    if |samples| > 0 {
      var s := samples[0];
      var b := PcmBytes(samples);
      assert b[..2] == SampleBytes(s);
      assert b[2..] == PcmBytes(samples[1..]);
      assert SampleFromBytes(b[0], b[1]) == s;
      PcmRoundTrip(samples[1..]);
    }
  }

  /** For a channel count 1 or 2, `frames` interleaved frames of a stream in the
      derived format occupy exactly `frames * frameSize` bytes. */
  lemma FrameSizeMatchesLayout(a: AudioInfo, samples: seq<int16>, frames: nat)
    requires a.channelCount == 1 || a.channelCount == 2
    requires |samples| == frames * a.channelCount
    ensures |PcmBytes(samples)| == frames * CreateAudioFormat(a).frameSize
  {
  }
}
