/**
  The second step of raw-audio playback: `decodeAudioData` in
  hooks/useAudioPlayer.ts. The bytes are read as signed 16-bit samples
  (little-endian, the byte order of every platform the application runs
  on), divided by 32768 and deinterleaved into one array per channel.
  Every value int16 / 32768 is exactly representable in a 32-bit float, so
  samples are modelled as reals.
 */
module Pcm {
  import opened Wrappers
  import opened Base64

  /** The exceptions `decodeAudioData` can throw. */
  datatype PcmError =
    | OddByteLength  // `new Int16Array(buffer)` throws a RangeError when the byte length is odd
    | EmptyBuffer    // `createBuffer` throws a NotSupportedError when asked for zero frames

  /** An AudioBuffer: its sample rate and one array of samples per channel. */
  datatype AudioBuffer = AudioBuffer(sampleRate: int, channels: seq<seq<real>>)

  /** Two bytes read as one little-endian two's-complement 16-bit integer. */
  function Int16Le(lo: byte, hi: byte): (v: int)
    ensures -32768 <= v < 32768
    ensures (v + 65536) % 65536 == lo + 256 * hi
  {
    var u := lo + 256 * hi;
    if u >= 32768 then u - 65536 else u
  }

  /** The two little-endian bytes of a 16-bit sample; `Int16Le` undoes it. */
  function Int16Bytes(v: int): (r: seq<byte>)
    requires -32768 <= v < 32768
    ensures |r| == 2 && Int16Le(r[0], r[1]) == v
  {
    var u := if v < 0 then v + 65536 else v;
    [u % 256, u / 256]
  }

  /**
    `new Int16Array(data.buffer)` (hooks/useAudioPlayer.ts:22): one sample
    per pair of bytes, and a RangeError when a byte is left over.
   */
  function Int16View(data: seq<byte>): (r: Result<seq<int>, PcmError>)
    ensures r.Failure? <==> |data| % 2 == 1
    ensures r.Failure? ==> r.error == OddByteLength
    ensures r.Success? ==> |r.value| * 2 == |data|
    ensures r.Success? ==> forall k :: 0 <= k < |r.value| ==> r.value[k] == Int16Le(data[2 * k], data[2 * k + 1])
  {
    if |data| % 2 == 1 then Failure(OddByteLength)
    else Success(seq(|data| / 2, k requires 0 <= k < |data| / 2 => Int16Le(data[2 * k], data[2 * k + 1])))
  }

  /** A 16-bit sample scaled into [-1, 1). */
  function SampleValue(v: int): real {
    v as real / 32768.0
  }

  /** Frame `i` of channel `c` sits at this index of the interleaved samples. */
  function Slot(i: int, numChannels: int, c: int): int {
    i * numChannels + c
  }

  lemma FrameIndex(i: int, c: int, numChannels: int, frames: int)
    requires 0 <= i < frames && 0 <= c < numChannels
    ensures 0 <= Slot(i, numChannels, c) < frames * numChannels
  {
    assert i * numChannels + c < (i + 1) * numChannels;
    assert (i + 1) * numChannels <= frames * numChannels;
  }

  lemma FrameIndices(numChannels: int, frames: int, c: int)
    requires 0 <= c < numChannels
    ensures forall i :: 0 <= i < frames ==> 0 <= Slot(i, numChannels, c) < frames * numChannels
  {
    forall i | 0 <= i < frames
      ensures 0 <= Slot(i, numChannels, c) < frames * numChannels
    {
      FrameIndex(i, c, numChannels, frames);
    }
  }

  /** The samples of channel `c`: interleaved samples `c`, `c + numChannels`, `c + 2 * numChannels`, ... */
  function ChannelData(samples: seq<int>, numChannels: int, frames: nat, c: int): (ch: seq<real>)
    requires 0 <= c < numChannels && |samples| == frames * numChannels
    ensures |ch| == frames
    ensures forall i :: 0 <= i < frames ==>
      0 <= Slot(i, numChannels, c) < |samples| && ch[i] == SampleValue(samples[Slot(i, numChannels, c)])
  {
    FrameIndices(numChannels, frames, c);
    seq(frames, i requires 0 <= i < frames => SampleValue(samples[Slot(i, numChannels, c)]))
  }

  /** One array per channel, deinterleaving the samples. */
  function Deinterleave(samples: seq<int>, numChannels: int, frames: nat): (channels: seq<seq<real>>)
    requires numChannels >= 1 && |samples| == frames * numChannels
    ensures |channels| == numChannels
    ensures forall c :: 0 <= c < numChannels ==> channels[c] == ChannelData(samples, numChannels, frames, c)
  {
    seq(numChannels, c requires 0 <= c < numChannels => ChannelData(samples, numChannels, frames, c))
  }

  /**
    `decodeAudioData` (hooks/useAudioPlayer.ts:16-33). The only call passes
    one channel; the model asks for a channel count that divides the sample
    count, so the frame count `length / numChannels` is a whole number.
   */
  function DecodePcm(data: seq<byte>, sampleRate: int, numChannels: int): (r: Result<AudioBuffer, PcmError>)
    requires numChannels >= 1 && (|data| / 2) % numChannels == 0
    ensures r.Failure? <==> |data| % 2 == 1 || |data| == 0
    ensures r.Failure? ==> r.error == (if |data| % 2 == 1 then OddByteLength else EmptyBuffer)
    ensures r.Success? ==>
      && r.value.sampleRate == sampleRate
      && |r.value.channels| == numChannels
      && forall c :: 0 <= c < numChannels ==> |r.value.channels[c]| * numChannels * 2 == |data|
    ensures r.Success? ==>
      forall c, i :: 0 <= c < numChannels && 0 <= i < |r.value.channels[c]| ==>
        var k := Slot(i, numChannels, c);
        0 <= 2 * k + 1 < |data| && r.value.channels[c][i] == Int16Le(data[2 * k], data[2 * k + 1]) as real / 32768.0
  {
    match Int16View(data)
    case Failure(e) => Failure(e)
    case Success(samples) =>
      var frames := |samples| / numChannels;
      if frames == 0 then Failure(EmptyBuffer)
      else
        Success(AudioBuffer(sampleRate, Deinterleave(samples, numChannels, frames)))
  }

  /**
    The loops of `decodeAudioData` (hooks/useAudioPlayer.ts:26-31): channel
    by channel, frame by frame, computing the same buffer as `DecodePcm`.
   */
  method DecodeAudioData(data: seq<byte>, sampleRate: int, numChannels: int) returns (r: Result<AudioBuffer, PcmError>)
    requires numChannels >= 1 && (|data| / 2) % numChannels == 0
    ensures r == DecodePcm(data, sampleRate, numChannels)
  {
    var view := Int16View(data);
    if view.Failure? {
      return Failure(view.error);
    }
    var dataInt16 := view.value;
    var frameCount := |dataInt16| / numChannels;
    if frameCount == 0 {
      return Failure(EmptyBuffer);
    }
    var channels: seq<seq<real>> := [];
    for channel := 0 to numChannels
      invariant |channels| == channel
      invariant forall c :: 0 <= c < channel ==> channels[c] == Deinterleave(dataInt16, numChannels, frameCount)[c]
    {
      var channelData: seq<real> := [];
      for i := 0 to frameCount
        invariant |channelData| == i
        invariant forall j :: 0 <= j < i ==> channelData[j] == ChannelData(dataInt16, numChannels, frameCount, channel)[j]
      {
        FrameIndex(i, channel, numChannels, frameCount);
        channelData := channelData + [SampleValue(dataInt16[Slot(i, numChannels, channel)])];
      }
      assert channelData == ChannelData(dataInt16, numChannels, frameCount, channel);
      channels := channels + [channelData];
    }
    assert channels == Deinterleave(dataInt16, numChannels, frameCount);
    r := Success(AudioBuffer(sampleRate, channels));
  }

  // ---------------------------------------------------------------------
  // Properties of the conversion.

  /** Every sample lies in [-1, 1). */
  lemma SamplesInRange(data: seq<byte>, sampleRate: int, numChannels: int)
    requires numChannels >= 1 && (|data| / 2) % numChannels == 0
    requires DecodePcm(data, sampleRate, numChannels).Success?
    ensures var chans := DecodePcm(data, sampleRate, numChannels).value.channels;
      forall c, i :: 0 <= c < |chans| && 0 <= i < |chans[c]| ==> -1.0 <= chans[c][i] < 1.0
  {
  }

  /** Silence in, silence out: all-zero bytes give all-zero samples. */
  lemma SilenceIsZero(data: seq<byte>, sampleRate: int, numChannels: int)
    requires numChannels >= 1 && (|data| / 2) % numChannels == 0
    requires forall k :: 0 <= k < |data| ==> data[k] == 0
    requires DecodePcm(data, sampleRate, numChannels).Success?
    ensures var chans := DecodePcm(data, sampleRate, numChannels).value.channels;
      forall c, i :: 0 <= c < |chans| && 0 <= i < |chans[c]| ==> chans[c][i] == 0.0
  {
  }

  /** The extreme samples: FF 7F is 32767/32768 and 00 80 is exactly -1. */
  lemma ExtremeSamples()
    ensures SampleValue(Int16Le(0xFF, 0x7F)) == 32767.0 / 32768.0
    ensures SampleValue(Int16Le(0x00, 0x80)) == -1.0
    ensures SampleValue(Int16Le(0x00, 0x00)) == 0.0
  {
  }

  /**
    The only call (hooks/useAudioPlayer.ts:54) is mono: an even, non-empty
    byte count 2k gives exactly k frames, frame i being bytes 2i and 2i+1.
   */
  lemma MonoFrames(data: seq<byte>, sampleRate: int)
    requires |data| % 2 == 0 && |data| > 0
    ensures (|data| / 2) % 1 == 0
    ensures var r := DecodePcm(data, sampleRate, 1);
      && r.Success?
      && |r.value.channels| == 1
      && |r.value.channels[0]| == |data| / 2
      && forall i :: 0 <= i < |data| / 2 ==>
           r.value.channels[0][i] == Int16Le(data[2 * i], data[2 * i + 1]) as real / 32768.0
  {
    var r := DecodePcm(data, sampleRate, 1);
    assert forall i :: 0 <= i < |r.value.channels[0]| ==> i * 1 + 0 == i;
  }

  /** Mono samples back to little-endian bytes. */
  function EncodeMono(samples: seq<real>): (r: seq<byte>)
    requires forall i :: 0 <= i < |samples| ==> -1.0 <= samples[i] < 1.0
    ensures |r| == 2 * |samples|
  {
    if |samples| == 0 then []
    else
      var v := (samples[0] * 32768.0).Floor;
      Int16Bytes(v) + EncodeMono(samples[1..])
  }

  /** No information is lost: re-encoding a mono buffer gives back the original bytes. */
  lemma {:induction false} MonoRoundTrip(data: seq<byte>, sampleRate: int)
    requires |data| % 2 == 0 && |data| > 0
    ensures (|data| / 2) % 1 == 0
    ensures DecodePcm(data, sampleRate, 1).Success?
    ensures var chans := DecodePcm(data, sampleRate, 1).value.channels;
      (forall i :: 0 <= i < |chans[0]| ==> -1.0 <= chans[0][i] < 1.0) && EncodeMono(chans[0]) == data
  {
    MonoFrames(data, sampleRate);
    var ch := DecodePcm(data, sampleRate, 1).value.channels[0];
    EncodeSamplesOf(data, ch);
  }

  lemma {:induction false} EncodeSamplesOf(data: seq<byte>, ch: seq<real>)
    requires |data| == 2 * |ch|
    requires forall i :: 0 <= i < |ch| ==> ch[i] == Int16Le(data[2 * i], data[2 * i + 1]) as real / 32768.0
    ensures forall i :: 0 <= i < |ch| ==> -1.0 <= ch[i] < 1.0
    ensures EncodeMono(ch) == data
    decreases |ch|
  {
    if |ch| > 0 {
      var v := Int16Le(data[0], data[1]);
      assert (ch[0] * 32768.0).Floor == v;
      EncodeSamplesOf(data[2..], ch[1..]);
      var b := Int16Bytes(v);
      assert b[0] == data[0] && b[1] == data[1] by {
        Int16Injective(b[0], b[1], data[0], data[1]);
      }
      assert data == data[..2] + data[2..];
    }
  }

  /** Two byte pairs with the same sample value are the same bytes. */
  lemma Int16Injective(a0: byte, a1: byte, b0: byte, b1: byte)
    requires Int16Le(a0, a1) == Int16Le(b0, b1)
    ensures a0 == b0 && a1 == b1
  {
    assert a0 + 256 * a1 == b0 + 256 * b1;
  }

  lemma ThreeElements(s: seq<real>, a: real, b: real, c: real)
    requires |s| == 3 && s[0] == a && s[1] == b && s[2] == c
    ensures s == [a, b, c]
  {
  }

  /** The payload "AAD/fwCA" is the bytes 00 00 FF 7F 00 80. */
  lemma ExamplePayload()
    ensures Decode("AAD/fwCA") == Success([0x00, 0x00, 0xFF, 0x7F, 0x00, 0x80])
  {
    var bytes: seq<byte> := [0x00, 0x00, 0xFF, 0x7F, 0x00, 0x80];
    ExampleBody();
    assert Encode(bytes) == "AAD/fwCA";
    DecodeEncode(bytes);
  }

  lemma ExampleBody()
    ensures EncodeBody([0x00, 0x00, 0xFF, 0x7F, 0x00, 0x80]) == "AAD/fwCA"
  {
    ExampleSextets();
    ExampleChars();
  }

  lemma ExampleSextets()
    ensures SplitBytes([0x00, 0x00, 0xFF, 0x7F, 0x00, 0x80]) == [0, 0, 3, 63, 31, 48, 2, 0]
  {
    var bytes: seq<byte> := [0x00, 0x00, 0xFF, 0x7F, 0x00, 0x80];
    assert bytes[3..] == [0x7F, 0x00, 0x80];
    assert SplitBytes(bytes[3..]) == [31, 48, 2, 0];
  }

  lemma ExampleChars()
    ensures SextetChar(0) == 'A' && SextetChar(3) == 'D' && SextetChar(63) == '/'
    ensures SextetChar(31) == 'f' && SextetChar(48) == 'w' && SextetChar(2) == 'C'
  {
  }

  /** The bytes 00 00 FF 7F 00 80 play as the samples 0, 32767/32768 and -1. */
  lemma ExampleSamples()
    ensures DecodePcm([0x00, 0x00, 0xFF, 0x7F, 0x00, 0x80], 24000, 1)
         == Success(AudioBuffer(24000, [[0.0, 32767.0 / 32768.0, -1.0]]))
  {
    var bytes: seq<byte> := [0x00, 0x00, 0xFF, 0x7F, 0x00, 0x80];
    MonoFrames(bytes, 24000);
    var r := DecodePcm(bytes, 24000, 1);
    var ch := r.value.channels[0];
    assert ch[0] == 0.0 && ch[1] == 32767.0 / 32768.0 && ch[2] == -1.0;
    ThreeElements(ch, 0.0, 32767.0 / 32768.0, -1.0);
    assert r.value.channels == [ch];
  }
}
