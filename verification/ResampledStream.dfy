/**
 What the streaming linear resampler of src/audio_resampler.rs computes, as functions of the
 whole input stream, and why cutting that stream into calls makes no difference.

 Samples are an abstract type `S` and the interpolation of two neighbouring samples is an
 arbitrary function of (current, next, fraction, outputRate), so every equality below is
 bit-exact whatever the floating-point rounding does.
 */
module ResampledStream {
  import opened Arithmetic
  import opened Sequences

  const INTERPOLATION_MARGIN_FRAMES: nat := 2
  const U64_MAX: nat := 0xFFFF_FFFF_FFFF_FFFF

  type u16 = x: int | 0 <= x < 0x1_0000
  type u32 = x: int | 0 <= x < 0x1_0000_0000

  datatype AudioResamplerConfig = AudioResamplerConfig(inputRate: u32, outputRate: u32, channels: u16)
  {
    predicate Valid() {
      inputRate != 0 && outputRate != 0 && channels != 0
    }
  }

  datatype AudioResamplerError =
    | InvalidConfig(config: AudioResamplerConfig)
    | InvalidOutputFrameSize(outputFrames: nat)
    | IncompleteFrame(samples: nat, channels: nat)
    | CapacityOverflow

  datatype Result<+T> = Ok(value: T) | Err(error: AudioResamplerError)

  type Interpolation<!S> = (S, S, nat, nat) -> S

  // ---------------------------------------------------------------------------------------
  // What the resampler computes, as a function of the whole input stream
  // ---------------------------------------------------------------------------------------

  // Output frame k lies at input position k * inputRate / outputRate.
  function SourceFrame(c: AudioResamplerConfig, k: nat): nat
    requires c.Valid()
  {
    k * c.inputRate / c.outputRate
  }

  function Fraction(c: AudioResamplerConfig, k: nat): nat
    requires c.Valid()
  {
    k * c.inputRate % c.outputRate
  }

  // The last input frame that output frame k looks at.
  function LastSourceFrame(c: AudioResamplerConfig, k: nat): nat
    requires c.Valid()
  {
    SourceFrame(c, k) + if Fraction(c, k) != 0 then 1 else 0
  }

  function ScaledFrames(c: AudioResamplerConfig, inputFrames: nat): nat
    requires c.Valid()
  {
    inputFrames * c.outputRate / c.inputRate
  }

  // How many output frames `inputFrames` frames of input determine.
  function FrameCount(c: AudioResamplerConfig, inputFrames: nat): nat
    requires c.Valid()
  {
    if inputFrames == 0 then 0 else ScaledFrames(c, inputFrames - 1) + 1
  }

  // The first `count` output frames only look at the first `samples` samples.
  ghost predicate Determined(c: AudioResamplerConfig, samples: nat, count: nat)
    requires c.Valid()
  {
    forall k: nat | k < count :: (LastSourceFrame(c, k) + 1) * c.channels <= samples
  }

  ghost function OutputFrame<S>(c: AudioResamplerConfig, mix: Interpolation<S>, stream: seq<S>, k: nat): seq<S>
    requires c.Valid() && (LastSourceFrame(c, k) + 1) * c.channels <= |stream|
  {
    MulMonotone(SourceFrame(c, k) + 1, LastSourceFrame(c, k) + 1, c.channels);
    seq(c.channels, channel requires 0 <= channel < c.channels =>
      mix(stream[SourceFrame(c, k) * c.channels + channel],
          stream[LastSourceFrame(c, k) * c.channels + channel],
          Fraction(c, k), c.outputRate))
  }

  lemma OutputFrameAt<S>(c: AudioResamplerConfig, mix: Interpolation<S>, stream: seq<S>, k: nat,
                         source: nat, last: nat, channel: nat)
    requires c.Valid() && (LastSourceFrame(c, k) + 1) * c.channels <= |stream| && channel < c.channels
    requires source == SourceFrame(c, k) && last == LastSourceFrame(c, k)
    requires 0 <= source * c.channels + channel < |stream| && 0 <= last * c.channels + channel < |stream|
    ensures OutputFrame(c, mix, stream, k)[channel] ==
            mix(stream[source * c.channels + channel], stream[last * c.channels + channel],
                Fraction(c, k), c.outputRate)
  {
  }

  // The first `count` output frames of `stream`.
  ghost function OutputFrames<S>(c: AudioResamplerConfig, mix: Interpolation<S>, stream: seq<S>, count: nat): seq<S>
    requires c.Valid() && Determined(c, |stream|, count)
  {
    if count == 0 then [] else
    OutputFrames(c, mix, stream, count - 1) + OutputFrame(c, mix, stream, count - 1)
  }

  /** Everything `stream` resamples to, in one formula over the whole stream. */
  ghost function Resampled<S>(c: AudioResamplerConfig, mix: Interpolation<S>, stream: seq<S>): seq<S>
    requires c.Valid()
  {
    FramesDetermined(c, |stream|);
    OutputFrames(c, mix, stream, FrameCount(c, |stream| / c.channels))
  }

  /** The test `write_next_frame` makes on an input of `inputFrames` frames, in closed form. */
  lemma FrameAvailable(c: AudioResamplerConfig, inputFrames: nat, k: nat)
    requires c.Valid()
    ensures LastSourceFrame(c, k) < inputFrames <==> k < FrameCount(c, inputFrames)
  {
    if inputFrames > 0 {
      var position, q, r := k * c.inputRate, SourceFrame(c, k), Fraction(c, k);
      assert position == q * c.outputRate + r;
      DivBelow(k, (inputFrames - 1) * c.outputRate, c.inputRate);
      if q + 1 < inputFrames {
        MulMonotone(q + 1, inputFrames - 1, c.outputRate);
      } else if inputFrames <= q {
        MulMonotone(inputFrames, q, c.outputRate);
      }
    }
  }

  lemma FramesDetermined(c: AudioResamplerConfig, samples: nat)
    requires c.Valid()
    ensures Determined(c, samples, FrameCount(c, samples / c.channels))
  {
    forall k: nat | k < FrameCount(c, samples / c.channels)
      ensures (LastSourceFrame(c, k) + 1) * c.channels <= samples
    {
      FrameAvailable(c, samples / c.channels, k);
      MulMonotone(LastSourceFrame(c, k) + 1, samples / c.channels, c.channels);
    }
  }

  lemma FrameCountMonotone(c: AudioResamplerConfig, n: nat, m: nat)
    requires c.Valid() && n <= m
    ensures FrameCount(c, n) <= FrameCount(c, m)
  {
    if n > 0 {
      MulMonotone(n - 1, m - 1, c.outputRate);
      DivMonotone((n - 1) * c.outputRate, (m - 1) * c.outputRate, c.inputRate);
    }
  }

  // Where sample `channel` of frame k sits in an interleaved buffer.
  function SampleIndex(c: AudioResamplerConfig, k: nat, channel: nat): nat {
    k * c.channels + channel
  }

  lemma {:induction false} OutputFramesLength<S>(c: AudioResamplerConfig, mix: Interpolation<S>, stream: seq<S>,
                                                 count: nat)
    requires c.Valid() && Determined(c, |stream|, count)
    ensures |OutputFrames(c, mix, stream, count)| == count * c.channels
  {
    if count > 0 {
      OutputFramesLength(c, mix, stream, count - 1);
      Distribute(count - 1, 1, c.channels);
    }
  }

  /** Sample `channel` of output frame k, read off the whole stream. */
  lemma {:induction false} OutputSample<S>(c: AudioResamplerConfig, mix: Interpolation<S>, stream: seq<S>,
                                           count: nat, k: nat, channel: nat)
    requires c.Valid() && Determined(c, |stream|, count)
    requires k < count && channel < c.channels
    ensures SampleIndex(c, k, channel) < |OutputFrames(c, mix, stream, count)|
    ensures OutputFrames(c, mix, stream, count)[SampleIndex(c, k, channel)] ==
            OutputFrame(c, mix, stream, k)[channel]
  {
    OutputFramesLength(c, mix, stream, count);
    OutputFramesLength(c, mix, stream, count - 1);
    Distribute(k, 1, c.channels);
    MulMonotone(k + 1, count, c.channels);
    if k < count - 1 {
      OutputSample(c, mix, stream, count - 1, k, channel);
    }
  }

  lemma OutputFrameStable<S>(c: AudioResamplerConfig, mix: Interpolation<S>, stream: seq<S>, more: seq<S>, k: nat)
    requires c.Valid() && (LastSourceFrame(c, k) + 1) * c.channels <= |stream|
    ensures OutputFrame(c, mix, stream, k) == OutputFrame(c, mix, stream + more, k)
  {
    var here, there := OutputFrame(c, mix, stream, k), OutputFrame(c, mix, stream + more, k);
    var source, last := SourceFrame(c, k), LastSourceFrame(c, k);
    MulMonotone(source + 1, last + 1, c.channels);
    forall channel | 0 <= channel < c.channels
      ensures here[channel] == there[channel]
    {
      assert stream[source * c.channels + channel] == (stream + more)[source * c.channels + channel];
      assert stream[last * c.channels + channel] == (stream + more)[last * c.channels + channel];
    }
  }

  // More input never changes a frame that was already determined.
  lemma {:induction false} OutputFramesStable<S>(c: AudioResamplerConfig, mix: Interpolation<S>,
                                                 stream: seq<S>, more: seq<S>, count: nat)
    requires c.Valid() && Determined(c, |stream|, count)
    ensures OutputFrames(c, mix, stream, count) == OutputFrames(c, mix, stream + more, count)
  {
    if count > 0 {
      OutputFramesStable(c, mix, stream, more, count - 1);
      OutputFrameStable(c, mix, stream, more, count - 1);
    }
  }

  lemma {:induction false} OutputFramesPrefix<S>(c: AudioResamplerConfig, mix: Interpolation<S>,
                                                 stream: seq<S>, shorter: nat, longer: nat)
    requires c.Valid() && shorter <= longer && Determined(c, |stream|, longer)
    ensures OutputFrames(c, mix, stream, shorter) <= OutputFrames(c, mix, stream, longer)
  {
    if shorter < longer {
      OutputFramesPrefix(c, mix, stream, shorter, longer - 1);
    }
  }

  /** The resampled stream only ever grows: what was emitted stays right after more input. */
  lemma ResampledPrefix<S>(c: AudioResamplerConfig, mix: Interpolation<S>, stream: seq<S>, more: seq<S>)
    requires c.Valid()
    ensures Resampled(c, mix, stream) <= Resampled(c, mix, stream + more)
  {
    DivNonneg(|stream|, c.channels);
    DivNonneg(|stream + more|, c.channels);
    var before, after := FrameCount(c, |stream| / c.channels), FrameCount(c, |stream + more| / c.channels);
    FramesDetermined(c, |stream|);
    FramesDetermined(c, |stream + more|);
    DivMonotone(|stream|, |stream + more|, c.channels);
    FrameCountMonotone(c, |stream| / c.channels, |stream + more| / c.channels);
    OutputFramesStable(c, mix, stream, more, before);
    OutputFramesPrefix(c, mix, stream + more, before, after);
  }

  lemma ResampledLength<S>(c: AudioResamplerConfig, mix: Interpolation<S>, stream: seq<S>, frames: nat)
    requires c.Valid() && |stream| == frames * c.channels
    ensures |Resampled(c, mix, stream)| == FrameCount(c, frames) * c.channels
  {
    DivUnique(|stream|, c.channels, frames, 0);
    FramesDetermined(c, |stream|);
    OutputFramesLength(c, mix, stream, FrameCount(c, frames));
  }

  /** The whole formula spelled out: n > 0 input frames give floor((n - 1) * out / in) + 1 output frames, and
      frame k mixes the input frame at floor(k * in / out) with the next one, or with itself if it is exact. */
  lemma ResampledSample<S>(c: AudioResamplerConfig, mix: Interpolation<S>, stream: seq<S>, n: nat, k: nat, channel: nat)
    requires c.Valid() && |stream| == n * c.channels
    ensures |Resampled(c, mix, stream)| == if n == 0 then 0 else ((n - 1) * c.outputRate / c.inputRate + 1) * c.channels
    ensures 0 < n && k <= (n - 1) * c.outputRate / c.inputRate && channel < c.channels ==>
              var frame, fraction := k * c.inputRate / c.outputRate, k * c.inputRate % c.outputRate;
              var next := if fraction == 0 then frame else frame + 1;
              && 0 <= k * c.channels + channel < |Resampled(c, mix, stream)|
              && 0 <= frame * c.channels + channel < |stream| && 0 <= next * c.channels + channel < |stream|
              && Resampled(c, mix, stream)[k * c.channels + channel] ==
                 mix(stream[frame * c.channels + channel], stream[next * c.channels + channel], fraction, c.outputRate)
  {
    ResampledLength(c, mix, stream, n);
    DivUnique(|stream|, c.channels, n, 0);
    if 0 < n && k <= (n - 1) * c.outputRate / c.inputRate && channel < c.channels {
      FramesDetermined(c, |stream|);
      OutputSample(c, mix, stream, FrameCount(c, n), k, channel);
      FrameAvailable(c, n, k);
      InterleavedIndex(SourceFrame(c, k), n, c.channels, channel);
      InterleavedIndex(LastSourceFrame(c, k), n, c.channels, channel);
      MulMonotone(LastSourceFrame(c, k) + 1, n, c.channels);
      OutputFrameAt(c, mix, stream, k, SourceFrame(c, k), LastSourceFrame(c, k), channel);
    }
  }

  lemma InterleavedIndex(frame: nat, n: nat, channels: nat, channel: nat)
    requires frame < n && channel < channels
    ensures 0 <= frame * channels + channel < n * channels
  {
    MulMonotone(0, frame, channels);
    MulMonotone(frame + 1, n, channels);
    Distribute(frame, 1, channels);
  }

  // ---------------------------------------------------------------------------------------
  // Runs of calls
  // ---------------------------------------------------------------------------------------

  /** Room for `inputSamples` more samples of input, in checked `usize` arithmetic. */
  function OutputCapacity(c: AudioResamplerConfig, inputSamples: nat): Result<nat>
    requires c.Valid()
  {
    var inputFrames := inputSamples / c.channels;
    if inputFrames * c.outputRate > USIZE_MAX then Err(CapacityOverflow) else
    var frames := ScaledFrames(c, inputFrames) + INTERPOLATION_MARGIN_FRAMES;
    if frames > USIZE_MAX || frames * c.channels > USIZE_MAX then Err(CapacityOverflow) else
    Ok(frames * c.channels)
  }

  // The error a call with this input returns, if any; it does not depend on the state.
  function Rejection(c: AudioResamplerConfig, input: seq): Result<()>
    requires c.Valid()
  {
    if |input| % c.channels != 0 then Err(IncompleteFrame(|input|, c.channels))
    else if OutputCapacity(c, |input|).Err? then Err(CapacityOverflow)
    else Ok(())
  }

  /** In plain arithmetic: a chunk of whole frames is accepted exactly if scaling its frames and reserving
      for them fits into 64 bits; any other is refused with the error of the check that fails first. */
  lemma RejectionExactly<S>(c: AudioResamplerConfig, input: seq<S>)
    requires c.Valid()
    ensures var n := |input| / c.channels;
            var fits := && n * c.outputRate <= 0xFFFF_FFFF_FFFF_FFFF
                        && (n * c.outputRate / c.inputRate + 2) * c.channels <= 0xFFFF_FFFF_FFFF_FFFF;
            Rejection(c, input) ==
            if |input| % c.channels != 0 then Err(IncompleteFrame(|input|, c.channels))
            else if fits then Ok(()) else Err(CapacityOverflow)
  {
    DivNonneg(|input|, c.channels);
    MulMonotone(0, |input| / c.channels, c.outputRate);
    DivNonneg(|input| / c.channels * c.outputRate, c.inputRate);
    MulMonotone(1, c.channels, ScaledFrames(c, |input| / c.channels) + 2);
  }

  /** So no ordinary chunk is ever refused: up to 65535 whole frames pass at every valid configuration. */
  lemma OrdinaryChunksAccepted<S>(c: AudioResamplerConfig, input: seq<S>, n: nat)
    requires c.Valid() && |input| == n * c.channels && n <= 65535
    ensures Rejection(c, input) == Ok(())
  {
    DivUnique(|input|, c.channels, n, 0);
    RejectionExactly(c, input);
    MulMonotone(n, 65535, c.outputRate);
    DivNonneg(n * c.outputRate, c.inputRate);
    MulMonotone(1, c.inputRate, ScaledFrames(c, n));
    MulMonotone(ScaledFrames(c, n) + 2, 0x1_0000_0000_0000, c.channels);
  }

  // What one accepted call appends when `heard` is all the input accepted before it.
  ghost function Emission<S>(c: AudioResamplerConfig, mix: Interpolation<S>, heard: seq<S>, input: seq<S>): seq<S>
    requires c.Valid()
  {
    ResampledPrefix(c, mix, heard, input);
    Resampled(c, mix, heard + input)[|Resampled(c, mix, heard)|..]
  }

  lemma EmissionExtends<S>(c: AudioResamplerConfig, mix: Interpolation<S>, heard: seq<S>, input: seq<S>)
    requires c.Valid()
    ensures Resampled(c, mix, heard) + Emission(c, mix, heard, input) == Resampled(c, mix, heard + input)
  {
    ResampledPrefix(c, mix, heard, input);
  }

  ghost function RunOutput<S>(c: AudioResamplerConfig, mix: Interpolation<S>, heard: seq<S>,
                              chunks: seq<seq<S>>): seq<S>
    requires c.Valid()
    decreases |chunks|
  {
    if chunks == [] then []
    else if Rejection(c, chunks[0]).Err? then RunOutput(c, mix, heard, chunks[1..])
    else Emission(c, mix, heard, chunks[0]) + RunOutput(c, mix, heard + chunks[0], chunks[1..])
  }

  function Accepted<S>(c: AudioResamplerConfig, chunks: seq<seq<S>>): seq<S>
    requires c.Valid()
    decreases |chunks|
  {
    if chunks == [] then []
    else (if Rejection(c, chunks[0]).Err? then [] else chunks[0]) + Accepted(c, chunks[1..])
  }

  lemma {:induction false} RunRefinesStream<S>(c: AudioResamplerConfig, mix: Interpolation<S>,
                                               heard: seq<S>, chunks: seq<seq<S>>)
    requires c.Valid()
    ensures Resampled(c, mix, heard) + RunOutput(c, mix, heard, chunks) ==
            Resampled(c, mix, heard + Accepted(c, chunks))
    decreases |chunks|
  {
    if chunks == [] {
      assert heard + Accepted(c, chunks) == heard;
    } else if Rejection(c, chunks[0]).Err? {
      RunRefinesStream(c, mix, heard, chunks[1..]);
      assert Accepted(c, chunks) == Accepted(c, chunks[1..]);
    } else {
      RunRefinesStream(c, mix, heard + chunks[0], chunks[1..]);
      ResampledPrefix(c, mix, heard, chunks[0]);
      assert heard + Accepted(c, chunks) == heard + chunks[0] + Accepted(c, chunks[1..]);
      assert Resampled(c, mix, heard) + RunOutput(c, mix, heard, chunks) ==
             Resampled(c, mix, heard + chunks[0]) + RunOutput(c, mix, heard + chunks[0], chunks[1..]);
    }
  }

  /** Chunking does not matter: any run emits exactly what one call on all its accepted input would. */
  lemma ChunkingDoesNotMatter<S>(c: AudioResamplerConfig, mix: Interpolation<S>, chunks: seq<seq<S>>)
    requires c.Valid()
    ensures RunOutput(c, mix, [], chunks) == Resampled(c, mix, Accepted(c, chunks))
    ensures Rejection(c, Accepted(c, chunks)).Ok? ==>
              RunOutput(c, mix, [], chunks) == RunOutput(c, mix, [], [Accepted(c, chunks)])
  {
    var whole := Accepted(c, chunks);
    RunRefinesStream(c, mix, [], chunks);
    RunRefinesStream(c, mix, [], [whole]);
    assert [] + whole == whole && [] + Accepted(c, [whole]) == Accepted(c, [whole]);
    assert Resampled<S>(c, mix, []) == [];
    assert Rejection(c, whole).Ok? ==> Accepted(c, [whole]) == whole;
  }

  /** A call with n frames emits at most floor(n * out / in) + 1 frames, wherever the stream stands. */
  lemma EmissionBound(c: AudioResamplerConfig, heardFrames: nat, n: nat)
    requires c.Valid()
    ensures FrameCount(c, heardFrames) <= FrameCount(c, heardFrames + n)
    ensures FrameCount(c, heardFrames + n) - FrameCount(c, heardFrames) <= ScaledFrames(c, n) + 1
  {
    FrameCountMonotone(c, heardFrames, heardFrames + n);
    if heardFrames > 0 {
      Distribute(heardFrames - 1, n, c.outputRate);
      DivSum((heardFrames - 1) * c.outputRate, n * c.outputRate, c.inputRate);
    } else if n > 0 {
      MulMonotone(n - 1, n, c.outputRate);
      DivMonotone((n - 1) * c.outputRate, n * c.outputRate, c.inputRate);
    }
  }

  /** Reserved space always suffices: `output_capacity` covers every frame the call can write. */
  lemma ReservedSpaceSuffices(c: AudioResamplerConfig, heardFrames: nat, inputSamples: nat, written: nat)
    requires c.Valid() && OutputCapacity(c, inputSamples).Ok?
    requires FrameCount(c, heardFrames) + written <= FrameCount(c, heardFrames + inputSamples / c.channels)
    ensures (written + 1) * c.channels <= OutputCapacity(c, inputSamples).value
  {
    var n := inputSamples / c.channels;
    EmissionBound(c, heardFrames, n);
    MulMonotone(written + 1, ScaledFrames(c, n) + INTERPOLATION_MARGIN_FRAMES, c.channels);
  }

  // ---------------------------------------------------------------------------------------
  // Preallocation
  // ---------------------------------------------------------------------------------------

  // The most input frames one packet of `outputFrames` frames can need.
  function InputFramesPerPacket(c: AudioResamplerConfig, outputFrames: nat): nat
    requires c.Valid()
  {
    CeilDiv(outputFrames * c.inputRate, c.outputRate)
  }

  /** It is the least number of frames that, once there is a frame to interpolate from, determines a
      whole packet from wherever the stream stands. */
  lemma InputFramesPerPacketLeast(c: AudioResamplerConfig, outputFrames: nat, n: nat)
    requires c.Valid()
    ensures InputFramesPerPacket(c, outputFrames) <= n <==>
            forall heardFrames: nat | 0 < heardFrames ::
              FrameCount(c, heardFrames) + outputFrames <= FrameCount(c, heardFrames + n)
  {
    CeilDivFirst(outputFrames * c.inputRate, c.outputRate, n);
    DivBelow(outputFrames, n * c.outputRate, c.inputRate);
    if InputFramesPerPacket(c, outputFrames) <= n {
      forall heardFrames: nat | 0 < heardFrames
        ensures FrameCount(c, heardFrames) + outputFrames <= FrameCount(c, heardFrames + n)
      {
        Distribute(heardFrames - 1, n, c.outputRate);
        DivSum((heardFrames - 1) * c.outputRate, n * c.outputRate, c.inputRate);
      }
    } else {
      DivUnique(0, c.inputRate, 0, 0);
      assert FrameCount(c, 1) == 1 && FrameCount(c, 1 + n) == ScaledFrames(c, n) + 1;
    }
  }

  /** The first chunk of a stream has no such frame. It too fills a packet exactly if the part of the last
      input frame that the packet needs is no longer than an output frame, ... */
  lemma FirstPacketFilledIff(c: AudioResamplerConfig, outputFrames: nat)
    requires c.Valid() && 0 < outputFrames
    ensures outputFrames <= FrameCount(c, InputFramesPerPacket(c, outputFrames)) <==>
            var rest := outputFrames * c.inputRate % c.outputRate;
            (if rest == 0 then c.outputRate else rest) <= c.inputRate
    ensures c.outputRate <= c.inputRate ==> outputFrames <= FrameCount(c, InputFramesPerPacket(c, outputFrames))
  {
    var exact, n := outputFrames * c.inputRate, InputFramesPerPacket(c, outputFrames);
    MulMonotone(1, outputFrames, c.inputRate);
    CeilDivFirst(exact, c.outputRate, 0);
    CeilDivLess(exact, c.outputRate);
    MulMonotone(0, n - 1, c.outputRate);
    Distribute(outputFrames, -1, c.inputRate);
    DivBelow(outputFrames - 1, (n - 1) * c.outputRate, c.inputRate);
    DivNonneg((n - 1) * c.outputRate, c.inputRate);
    RestBelow(exact, c.outputRate);
  }

  lemma RestBelow(exact: nat, outputRate: nat)
    requires 0 < outputRate
    ensures (if exact % outputRate == 0 then outputRate else exact % outputRate) <= outputRate
  {
  }

  /** ... which fails at rates 1 to 3. */
  lemma FirstPacketShort()
    ensures var c := AudioResamplerConfig(1, 3, 1);
            InputFramesPerPacket(c, 3) == 1 && FrameCount(c, 1) == 1
  {
  }

  // A call with n frames on `pending` pending frames asks for no more than 2F + 2 frames.
  predicate FitsPreallocation(c: AudioResamplerConfig, outputFrames: nat, pending: nat, n: nat)
    requires c.Valid()
  {
    pending + ScaledFrames(c, n) + INTERPOLATION_MARGIN_FRAMES <= 2 * outputFrames + INTERPOLATION_MARGIN_FRAMES
  }

  lemma ScaledMonotone(c: AudioResamplerConfig, n: nat, m: nat)
    requires c.Valid() && n <= m
    ensures ScaledFrames(c, n) <= ScaledFrames(c, m)
  {
    MulMonotone(n, m, c.outputRate);
    DivMonotone(n * c.outputRate, m * c.outputRate, c.inputRate);
  }

  // Frames left pending after `heardFrames` frames.
  function Pending(c: AudioResamplerConfig, outputFrames: nat, heardFrames: nat): nat
    requires c.Valid() && 0 < outputFrames
  {
    FrameCount(c, heardFrames) % outputFrames
  }

  // The largest number of frames any run leaves pending.
  function MaxPending(c: AudioResamplerConfig, outputFrames: nat): nat
    requires c.Valid() && 0 < outputFrames
  {
    if outputFrames == 1 then 0 else
    MulMonotone(1, outputFrames - 1, c.inputRate);
    DivNonneg(LastPosition(c, outputFrames), c.inputRate);
    LastPosition(c, outputFrames) / c.inputRate + 1
  }

  // Positions modulo a packet are the multiples of this step.
  function Step(c: AudioResamplerConfig, outputFrames: nat): (g: nat)
    requires c.Valid() && 0 < outputFrames
    ensures 0 < g
  {
    Gcd(c.outputRate, outputFrames * c.inputRate)
  }

  // The largest such position in a packet but before its last frame.
  function LastPosition(c: AudioResamplerConfig, outputFrames: nat): (p: nat)
    requires c.Valid() && 1 < outputFrames
  {
    var g := Step(c, outputFrames);
    MulMonotone(1, outputFrames - 1, c.inputRate);
    CeilDivFirst((outputFrames - 1) * c.inputRate, g, 0);
    MulMonotone(0, CeilDiv((outputFrames - 1) * c.inputRate, g) - 1, g);
    (CeilDiv((outputFrames - 1) * c.inputRate, g) - 1) * g
  }

  lemma PacketPosition(c: AudioResamplerConfig, outputFrames: nat, heardFrames: nat)
    requires c.Valid() && 0 < outputFrames && 0 < heardFrames
    ensures 0 < outputFrames * c.inputRate
    ensures var frame := (heardFrames - 1) * c.outputRate % (outputFrames * c.inputRate) / c.inputRate;
            0 <= frame < outputFrames && Pending(c, outputFrames, heardFrames) == (frame + 1) % outputFrames
  {
    var x := (heardFrames - 1) * c.outputRate;
    QuotientMod(x, c.inputRate, outputFrames);
    NextMod(x / c.inputRate, outputFrames);
  }

  lemma NextMod(v: nat, f: nat)
    requires 0 < f
    ensures (v + 1) % f == (v % f + 1) % f
  {
    DivNonneg(v, f);
    var q, r := v / f, v % f;
    if r + 1 < f {
      DivUnique(v + 1, f, q, r + 1);
      DivUnique(r + 1, f, 0, r + 1);
    } else {
      Distribute(q, 1, f);
      DivUnique(v + 1, f, q + 1, 0);
      DivUnique(r + 1, f, 1, 0);
    }
  }

  lemma PendingBounded(c: AudioResamplerConfig, outputFrames: nat, heardFrames: nat)
    requires c.Valid() && 0 < outputFrames
    ensures Pending(c, outputFrames, heardFrames) <= MaxPending(c, outputFrames)
  {
    var m := outputFrames * c.inputRate;
    if outputFrames == 1 {
      DivUnique(FrameCount(c, heardFrames), 1, FrameCount(c, heardFrames), 0);
    } else if heardFrames == 0 {
      DivUnique(0, outputFrames, 0, 0);
    } else {
      PacketPosition(c, outputFrames, heardFrames);
      PositionOnGrid(c, outputFrames, heardFrames - 1);
      var r := (heardFrames - 1) * c.outputRate % m;
      PositionBounded(c, outputFrames, r);
      NextInPacket(r / c.inputRate, outputFrames);
    }
  }

  lemma NextInPacket(frame: nat, outputFrames: nat)
    requires frame < outputFrames
    ensures (frame + 1) % outputFrames == if frame + 1 == outputFrames then 0 else frame + 1
  {
    if frame + 1 == outputFrames {
      DivUnique(frame + 1, outputFrames, 1, 0);
    } else {
      DivUnique(frame + 1, outputFrames, 0, frame + 1);
    }
  }

  // Every position modulo a packet is on the grid of the step.
  lemma PositionOnGrid(c: AudioResamplerConfig, outputFrames: nat, n: nat)
    requires c.Valid() && 0 < outputFrames
    ensures 0 < outputFrames * c.inputRate && 0 <= n * c.outputRate % (outputFrames * c.inputRate)
    ensures n * c.outputRate % (outputFrames * c.inputRate) % Step(c, outputFrames) == 0
  {
    MulMonotone(1, outputFrames, c.inputRate);
    var m, g := outputFrames * c.inputRate, Step(c, outputFrames);
    GcdDivides(c.outputRate, m);
    ModMultiple(n, c.outputRate, g);
    DivNonneg(n * c.outputRate, m);
    ModMultiple(n * c.outputRate / m, m, g);
    ModDifference(n * c.outputRate, n * c.outputRate / m * m, g);
  }

  lemma PositionBounded(c: AudioResamplerConfig, outputFrames: nat, r: nat)
    requires c.Valid() && 1 < outputFrames && r % Step(c, outputFrames) == 0
    ensures 0 <= r / c.inputRate
    ensures r / c.inputRate + 1 <= MaxPending(c, outputFrames) || outputFrames <= r / c.inputRate + 1
  {
    var g := Step(c, outputFrames);
    DivNonneg(r, c.inputRate);
    DivNonneg(r, g);
    DivBelow(outputFrames - 1, r, c.inputRate);
    if r < (outputFrames - 1) * c.inputRate {
      CeilDivFirst((outputFrames - 1) * c.inputRate, g, r / g);
      MulMonotone(r / g, CeilDiv((outputFrames - 1) * c.inputRate, g) - 1, g);
      DivMonotone(r, LastPosition(c, outputFrames), c.inputRate);
    }
  }

  lemma PendingAttained(c: AudioResamplerConfig, outputFrames: nat) returns (heardFrames: nat)
    requires c.Valid() && 0 < outputFrames
    ensures Pending(c, outputFrames, heardFrames) == MaxPending(c, outputFrames)
  {
    if outputFrames == 1 {
      heardFrames := 0;
    } else {
      MulMonotone(1, outputFrames, c.inputRate);
      var m, g, last := outputFrames * c.inputRate, Step(c, outputFrames), LastPosition(c, outputFrames);
      var k := CeilDiv((outputFrames - 1) * c.inputRate, g) - 1;
      LastBelow(c, outputFrames);
      var n := MultipleReached(c.outputRate, m, k);
      heardFrames := n + 1;
      PacketPosition(c, outputFrames, heardFrames);
      var frame := last / c.inputRate;
      NextInPacket(frame, outputFrames);
    }
  }

  lemma LastBelow(c: AudioResamplerConfig, outputFrames: nat)
    requires c.Valid() && 1 < outputFrames
    ensures LastPosition(c, outputFrames) < (outputFrames - 1) * c.inputRate < outputFrames * c.inputRate
    ensures 0 <= LastPosition(c, outputFrames) / c.inputRate < outputFrames - 1
    ensures 0 < CeilDiv((outputFrames - 1) * c.inputRate, Step(c, outputFrames))
  {
    var g := Step(c, outputFrames);
    MulMonotone(1, outputFrames - 1, c.inputRate);
    Distribute(outputFrames - 1, 1, c.inputRate);
    CeilDivFirst((outputFrames - 1) * c.inputRate, g, 0);
    CeilDivFirst((outputFrames - 1) * c.inputRate, g, CeilDiv((outputFrames - 1) * c.inputRate, g) - 1);
    DivNonneg(LastPosition(c, outputFrames), c.inputRate);
    DivBelow(outputFrames - 1, LastPosition(c, outputFrames), c.inputRate);
  }

  /** Frames can be heard one by one, so a run can stand at any number of them. */
  lemma SingleFramesAccepted<S>(c: AudioResamplerConfig, outputFrames: nat, frame: seq<S>)
    requires c.Valid() && 0 < outputFrames && |frame| == c.channels
    ensures Rejection(c, frame).Ok? && 1 <= InputFramesPerPacket(c, outputFrames)
  {
    DivUnique(|frame|, c.channels, 1, 0);
    MulMonotone(1, c.inputRate, c.outputRate);
    DivBelow(c.outputRate + 1, c.outputRate, c.inputRate);
    Distribute(c.outputRate, 1, c.inputRate);
    MulMonotone(ScaledFrames(c, 1) + 2, 0x1_0000_0002, c.channels);
    MulMonotone(1, outputFrames, c.inputRate);
    CeilDivFirst(outputFrames * c.inputRate, c.outputRate, 0);
  }

  // The capacity check lets n frames pass.
  predicate Admissible(c: AudioResamplerConfig, n: nat)
    requires c.Valid()
  {
    MulMonotone(0, n, c.channels);
    OutputCapacity(c, n * c.channels).Ok?
  }

  // The most frames it lets pass.
  function MaxAdmissible(c: AudioResamplerConfig): nat
    requires c.Valid()
  {
    var frames := USIZE_MAX / c.channels - 1;
    DivBelow(2, USIZE_MAX, c.channels);
    MulMonotone(1, frames, c.inputRate);
    CeilDivFirst(frames * c.inputRate, c.outputRate, 0);
    DivNonneg(USIZE_MAX, c.outputRate);
    Min(USIZE_MAX / c.outputRate, CeilDiv(frames * c.inputRate, c.outputRate) - 1)
  }

  lemma AdmissibleIff(c: AudioResamplerConfig, n: nat)
    requires c.Valid()
    ensures Admissible(c, n) <==> n <= MaxAdmissible(c)
  {
    CapacityFits(c, n);
    var frames := USIZE_MAX / c.channels - 1;
    DivBelow(2, USIZE_MAX, c.channels);
    MulMonotone(1, frames, c.inputRate);
    DivBelow(n, USIZE_MAX, c.outputRate);
    CeilDivFirst(frames * c.inputRate, c.outputRate, n);
    DivBelow(frames, n * c.outputRate, c.inputRate);
    DivBelow(ScaledFrames(c, n) + INTERPOLATION_MARGIN_FRAMES, USIZE_MAX, c.channels);
  }

  lemma CapacityFits(c: AudioResamplerConfig, n: nat)
    requires c.Valid()
    ensures 0 <= n * c.channels && n * c.channels / c.channels == n
    ensures OutputCapacity(c, n * c.channels).Ok? <==>
            && n * c.outputRate <= USIZE_MAX
            && (ScaledFrames(c, n) + INTERPOLATION_MARGIN_FRAMES) * c.channels <= USIZE_MAX
  {
    DivUnique(n * c.channels, c.channels, n, 0);
    MulMonotone(0, n, c.channels);
    MulMonotone(1, c.channels, ScaledFrames(c, n) + INTERPOLATION_MARGIN_FRAMES);
  }

  // The largest regular chunk that is accepted.
  function LargestChunk(c: AudioResamplerConfig, outputFrames: nat): nat
    requires c.Valid()
  {
    Min(InputFramesPerPacket(c, outputFrames), MaxAdmissible(c))
  }

  // At most that chunk, on the most frames a run leaves pending, asks for 2F frames.
  predicate Roomy(c: AudioResamplerConfig, outputFrames: nat)
    requires c.Valid() && 0 < outputFrames
  {
    MaxPending(c, outputFrames) + ScaledFrames(c, LargestChunk(c, outputFrames)) <= 2 * outputFrames
  }

  /** The preallocated packet buffer suffices for every accepted regular chunk of every run exactly when
      it does for the largest one on the most frames a run leaves pending. */
  lemma PreallocationExactly(c: AudioResamplerConfig, outputFrames: nat)
    requires c.Valid() && 0 < outputFrames
    ensures (forall heardFrames: nat, n: nat | n <= InputFramesPerPacket(c, outputFrames) && Admissible(c, n) ::
               FitsPreallocation(c, outputFrames, Pending(c, outputFrames, heardFrames), n))
            <==> Roomy(c, outputFrames)
  {
    var largest := LargestChunk(c, outputFrames);
    if Roomy(c, outputFrames) {
      forall heardFrames: nat, n: nat | n <= InputFramesPerPacket(c, outputFrames) && Admissible(c, n)
        ensures FitsPreallocation(c, outputFrames, Pending(c, outputFrames, heardFrames), n)
      {
        PendingBounded(c, outputFrames, heardFrames);
        AdmissibleIff(c, n);
        ScaledMonotone(c, n, largest);
      }
    } else {
      var heardFrames := PendingAttained(c, outputFrames);
      AdmissibleIff(c, largest);
      assert !FitsPreallocation(c, outputFrames, Pending(c, outputFrames, heardFrames), largest);
    }
  }

  /** ... which holds when the rate at most doubles, or when packets hold whole input frames. */
  lemma PreallocationSuffices(c: AudioResamplerConfig, outputFrames: nat)
    requires c.Valid() && 0 < outputFrames
    requires c.outputRate <= 2 * c.inputRate || outputFrames * c.inputRate % c.outputRate == 0
    ensures Roomy(c, outputFrames)
  {
    FullChunk(c, outputFrames);
    ScaledMonotone(c, LargestChunk(c, outputFrames), InputFramesPerPacket(c, outputFrames));
    var heardFrames := PendingAttained(c, outputFrames);
    DivNonneg(FrameCount(c, heardFrames), outputFrames);
  }

  lemma FullChunk(c: AudioResamplerConfig, outputFrames: nat)
    requires c.Valid()
    requires c.outputRate <= 2 * c.inputRate || outputFrames * c.inputRate % c.outputRate == 0
    ensures ScaledFrames(c, InputFramesPerPacket(c, outputFrames)) <= outputFrames + 1
  {
    var most, exact := InputFramesPerPacket(c, outputFrames), outputFrames * c.inputRate;
    DivNonneg(exact, c.outputRate);
    var q, r := exact / c.outputRate, exact % c.outputRate;
    Distribute(q, 1, c.outputRate);
    assert most * c.outputRate == if r == 0 then exact else exact + (c.outputRate - r);
    Distribute(outputFrames, 2, c.inputRate);
    DivBelow(outputFrames + 2, most * c.outputRate, c.inputRate);
  }

  /** Tripling the rate into one-frame packets already outgrows the buffer on the first call. */
  lemma PreallocationCanFail()
    ensures var c := AudioResamplerConfig(1, 3, 1);
            LargestChunk(c, 1) == 1 && !FitsPreallocation(c, 1, Pending(c, 1, 0), 1) && !Roomy(c, 1)
  {
    var c := AudioResamplerConfig(1, 3, 1);
    DivUnique(USIZE_MAX, 1, USIZE_MAX, 0);
    AdmissibleIff(c, 1);
  }

  // ---------------------------------------------------------------------------------------
  // Preallocation over whole runs
  // ---------------------------------------------------------------------------------------

  // No chunk of the run is larger than a packet needs.
  ghost predicate RegularRun<S>(c: AudioResamplerConfig, outputFrames: nat, chunks: seq<seq<S>>)
    requires c.Valid()
  {
    forall chunk | chunk in chunks :: |chunk| <= InputFramesPerPacket(c, outputFrames) * c.channels
  }

  // Samples that `pending` frames take up together with what a call with n frames reserves.
  function Asked(c: AudioResamplerConfig, pending: nat, n: nat): nat
    requires c.Valid()
  {
    MulMonotone(0, pending + ScaledFrames(c, n) + INTERPOLATION_MARGIN_FRAMES, c.channels);
    (pending + ScaledFrames(c, n) + INTERPOLATION_MARGIN_FRAMES) * c.channels
  }

  // The capacity `new` reserves for packets, and what a run makes of it.
  function PacketCapacity(c: AudioResamplerConfig, outputFrames: nat): nat
    requires c.Valid()
  {
    MulMonotone(0, 2 * outputFrames + INTERPOLATION_MARGIN_FRAMES, c.channels);
    (2 * outputFrames + INTERPOLATION_MARGIN_FRAMES) * c.channels
  }

  ghost function RunCapacity<S>(c: AudioResamplerConfig, outputFrames: nat, chunks: seq<seq<S>>): nat
    requires c.Valid() && 0 < outputFrames
    decreases |chunks|
  {
    if chunks == [] then PacketCapacity(c, outputFrames) else
    var front, last := chunks[..|chunks| - 1], chunks[|chunks| - 1];
    CapacityStep(c, outputFrames, |Accepted(c, front)|, RunCapacity(c, outputFrames, front), last)
  }

  // ... and what one call does.
  ghost function CapacityStep<S>(c: AudioResamplerConfig, outputFrames: nat, heardSamples: nat, capacity: nat,
                                 input: seq<S>): nat
    requires c.Valid() && 0 < outputFrames
  {
    DivNonneg(heardSamples, c.channels);
    DivNonneg(|input|, c.channels);
    if Rejection(c, input).Err? then capacity
    else Max(capacity, Asked(c, Pending(c, outputFrames, heardSamples / c.channels), |input| / c.channels))
  }

  lemma AskedFits(c: AudioResamplerConfig, outputFrames: nat, pending: nat, n: nat)
    requires c.Valid()
    ensures Asked(c, pending, n) <= PacketCapacity(c, outputFrames) <==> FitsPreallocation(c, outputFrames, pending, n)
  {
    var asked := pending + ScaledFrames(c, n) + INTERPOLATION_MARGIN_FRAMES;
    var room := 2 * outputFrames + INTERPOLATION_MARGIN_FRAMES;
    if asked <= room {
      MulMonotone(asked, room, c.channels);
    } else {
      MulMonotone(room + 1, asked, c.channels);
      Distribute(room, 1, c.channels);
    }
  }

  /** Over whole runs: no run of regular chunks makes the packet buffer grow exactly if it is roomy. */
  lemma RunsKeepCapacityIff<S>(c: AudioResamplerConfig, outputFrames: nat, frame: seq<S>)
    requires c.Valid() && 0 < outputFrames && |frame| == c.channels
    ensures (forall chunks: seq<seq<S>> | RegularRun(c, outputFrames, chunks) ::
               RunCapacity(c, outputFrames, chunks) == PacketCapacity(c, outputFrames))
            <==> Roomy(c, outputFrames)
  {
    if Roomy(c, outputFrames) {
      forall chunks: seq<seq<S>> | RegularRun(c, outputFrames, chunks)
        ensures RunCapacity(c, outputFrames, chunks) == PacketCapacity(c, outputFrames)
      {
        RoomyRun(c, outputFrames, chunks);
      }
    } else {
      var chunks := OutgrowingRun(c, outputFrames, frame);
    }
  }

  lemma {:induction false} RoomyRun<S>(c: AudioResamplerConfig, outputFrames: nat, chunks: seq<seq<S>>)
    requires c.Valid() && 0 < outputFrames && Roomy(c, outputFrames) && RegularRun(c, outputFrames, chunks)
    ensures RunCapacity(c, outputFrames, chunks) == PacketCapacity(c, outputFrames)
    decreases |chunks|
  {
    if chunks != [] {
      var front, last := chunks[..|chunks| - 1], chunks[|chunks| - 1];
      assert last in chunks;
      RoomyRun(c, outputFrames, front);
      RoomyStep(c, outputFrames, |Accepted(c, front)|, last);
    }
  }

  lemma RoomyStep<S>(c: AudioResamplerConfig, outputFrames: nat, heardSamples: nat, input: seq<S>)
    requires c.Valid() && 0 < outputFrames && Roomy(c, outputFrames)
    requires |input| <= InputFramesPerPacket(c, outputFrames) * c.channels
    ensures CapacityStep(c, outputFrames, heardSamples, PacketCapacity(c, outputFrames), input)
            == PacketCapacity(c, outputFrames)
  {
    if Rejection(c, input).Ok? {
      DivNonneg(heardSamples, c.channels);
      CeilingOfFrames(|input|, InputFramesPerPacket(c, outputFrames), c.channels);
      WholeFrames(c, input);
      PreallocationExactly(c, outputFrames);
      AskedFits(c, outputFrames, Pending(c, outputFrames, heardSamples / c.channels), |input| / c.channels);
    }
  }

  lemma WholeFrames<S>(c: AudioResamplerConfig, input: seq<S>)
    requires c.Valid() && Rejection(c, input).Ok?
    ensures 0 <= |input| / c.channels && Admissible(c, |input| / c.channels)
  {
    DivNonneg(|input|, c.channels);
  }

  lemma CeilingOfFrames(samples: nat, most: nat, channels: nat)
    requires 0 < channels && samples <= most * channels
    ensures 0 <= samples / channels <= most
  {
    assert samples == (samples / channels) * channels + samples % channels;
    DivUnique(most * channels, channels, most, 0);
    DivMonotone(samples, most * channels, channels);
  }

  // Single frames until the most are pending, then the largest chunk.
  lemma OutgrowingRun<S>(c: AudioResamplerConfig, outputFrames: nat, frame: seq<S>) returns (chunks: seq<seq<S>>)
    requires c.Valid() && 0 < outputFrames && |frame| == c.channels && !Roomy(c, outputFrames)
    ensures RegularRun(c, outputFrames, chunks)
    ensures RunCapacity(c, outputFrames, chunks) > PacketCapacity(c, outputFrames)
  {
    var heardFrames := PendingAttained(c, outputFrames);
    var largest := LargestChunk(c, outputFrames);
    MulMonotone(0, largest, c.channels);
    MulMonotone(0, heardFrames, c.channels);
    var singles, last := seq(heardFrames, _ => frame), seq(largest * c.channels, _ => frame[0]);
    chunks := singles + [last];
    assert chunks[..|chunks| - 1] == singles;
    SinglesAccepted(c, outputFrames, frame, heardFrames);
    DivUnique(heardFrames * c.channels, c.channels, heardFrames, 0);
    DivUnique(largest * c.channels, c.channels, largest, 0);
    AdmissibleIff(c, largest);
    AskedFits(c, outputFrames, MaxPending(c, outputFrames), largest);
    MulMonotone(1, InputFramesPerPacket(c, outputFrames), c.channels);
    MulMonotone(largest, InputFramesPerPacket(c, outputFrames), c.channels);
  }

  lemma {:induction false} SinglesAccepted<S>(c: AudioResamplerConfig, outputFrames: nat, frame: seq<S>, n: nat)
    requires c.Valid() && 0 < outputFrames && |frame| == c.channels
    ensures |Accepted(c, seq(n, _ => frame))| == n * c.channels
    ensures 1 <= InputFramesPerPacket(c, outputFrames)
  {
    SingleFramesAccepted(c, outputFrames, frame);
    if n > 0 {
      SinglesAccepted(c, outputFrames, frame, n - 1);
      assert seq(n, _ => frame)[1..] == seq(n - 1, _ => frame);
      Distribute(n - 1, 1, c.channels);
    }
  }

  // One more call.
  lemma {:induction false} AcceptedPush<S>(c: AudioResamplerConfig, chunks: seq<seq<S>>, input: seq<S>)
    requires c.Valid()
    ensures Accepted(c, chunks + [input]) == Accepted(c, chunks) + if Rejection(c, input).Err? then [] else input
    decreases |chunks|
  {
    if chunks == [] {
      assert [] + [input] == [input];
    } else {
      AcceptedPush(c, chunks[1..], input);
      TailOfConcat(chunks, [input]);
    }
  }

  // ---------------------------------------------------------------------------------------
  // Machine integers
  // ---------------------------------------------------------------------------------------

  // The largest value `next_position` takes in a call with n frames after `heardFrames` frames:
  // the one after the last frame written.
  function PeakPosition(c: AudioResamplerConfig, heardFrames: nat, n: nat): int
    requires c.Valid()
  {
    FrameCount(c, heardFrames + n) * c.inputRate - Discarded(c, heardFrames) * c.outputRate
  }

  // Frames dropped from the buffer after `heardFrames` frames.
  function Discarded(c: AudioResamplerConfig, heardFrames: nat): nat
    requires c.Valid()
  {
    var consumed := SourceFrame(c, FrameCount(c, heardFrames));
    if consumed <= heardFrames then consumed else heardFrames
  }

  /** The position stays at most n * out + in during a call with n frames, however long the stream. */
  lemma PositionBound(c: AudioResamplerConfig, heardFrames: nat, n: nat)
    requires c.Valid()
    ensures PeakPosition(c, heardFrames, n) <= n * c.outputRate + c.inputRate
  {
    var total, discarded := heardFrames + n, Discarded(c, heardFrames);
    if total > 0 {
      var scaled := ScaledFrames(c, total - 1);
      DivNonneg((total - 1) * c.outputRate, c.inputRate);
      Distribute(scaled, 1, c.inputRate);
      assert heardFrames <= discarded + 1 by {
        FrameAvailable(c, heardFrames, FrameCount(c, heardFrames));
      }
      MulMonotone(total - 1, discarded + n, c.outputRate);
      Distribute(discarded, n, c.outputRate);
    }
  }

  /** The capacity check alone does not keep it in 64 bits: after one frame, 2^32 + 1 more mono frames pass
      the check at these rates and push the position past 2^64 - 1. */
  lemma PositionCanOverflow()
    ensures var c := AudioResamplerConfig(0xFFFF_FFFE, 0xFFFF_FFFF, 1);
            OutputCapacity(c, 0x1_0000_0001).Ok? && PeakPosition(c, 1, 0x1_0000_0001) > U64_MAX
  {
  }
}
