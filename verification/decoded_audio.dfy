/**
 DecodedAudio: the value a whole-stream decode returns. Its getters return the
 constructor arguments, the sample array is handed out as given (a value here,
 so identity and equality coincide), and it overrides `createAudioFormat` with
 its own expression over its fields.
 */
module DecodedAudio {
  import opened JavaLang
  import Audio

  datatype DecodedAudio = DecodedAudio(channelCount: int32, sampleRate: int32, bitRate: int32, samples: seq<int16>)

  /** The `Audio` accessors of a decoded result. */
  function Info(d: DecodedAudio): Audio.AudioInfo
  {
    Audio.AudioInfo(d.channelCount, d.sampleRate, d.bitRate)
  }

  /** The override of `createAudioFormat()`: it agrees field for field with the
      interface default, so both paths describe 16-bit little-endian signed PCM. */
  function CreateAudioFormat(d: DecodedAudio): (f: Audio.AudioFormat)
    ensures f == Audio.CreateAudioFormat(Info(d))
    ensures f.sampleSizeInBits == 16 && f.channels == d.channelCount
  {
    Audio.AudioFormat(Audio.PcmSigned, d.sampleRate, Audio.SampleSizeInBits(), d.channelCount,
                      Wrap32(Audio.SampleSizeInBytes() * d.channelCount), d.sampleRate, false)
  }
}
