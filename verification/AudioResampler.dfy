/**
 The streaming linear resampler of src/audio_resampler.rs and the wrapper that cuts its
 output into equal packets, proved against the whole-stream functions of ResampledStream.
 */
module AudioResampler {
  import opened Arithmetic
  import opened ResampledStream
  import opened Sequences

  const PENDING_PACKET_CAPACITY: nat := 2

  /** A growable vector: `capacity` only changes when the contents no longer fit. */
  datatype Buffer<T> = Buffer(items: seq<T>, capacity: nat)
  {
    predicate Fits() {
      |items| <= capacity
    }

    function Reserve(additional: nat): Buffer<T> {
      Buffer(items, Max(capacity, |items| + additional))
    }

    function Append(more: seq<T>): Buffer<T> {
      Buffer(items + more, Reserve(|more|).capacity)
    }

    function DrainFront(count: nat): Buffer<T>
      requires count <= |items|
    {
      Buffer(items[count..], capacity)
    }
  }

  function ValidateConfig(config: AudioResamplerConfig): (r: Result<nat>)
    ensures r.Ok? <==> config.Valid()
    ensures r.Ok? ==> r.value == config.channels > 0
  {
    if config.inputRate == 0 || config.outputRate == 0 || config.channels == 0 then
      Err(InvalidConfig(config))
    else
      Ok(config.channels)
  }

  function ValidateInput(input: seq, channels: nat): (r: Result<()>)
    requires 0 < channels
  {
    if |input| % channels != 0 then Err(IncompleteFrame(|input|, channels)) else Ok(())
  }

  // Frame `frame` after dropping `discarded` frames is frame `discarded + frame` of the stream.
  lemma SuffixSample<S>(stream: seq<S>, frames: nat, channels: nat, discarded: nat, frame: nat, channel: nat)
    requires |stream| == frames * channels && discarded * channels <= |stream|
    requires discarded + frame < frames && channel < channels
    ensures 0 <= frame * channels + channel < |stream[discarded * channels..]|
    ensures 0 <= (discarded + frame) * channels + channel < |stream|
    ensures stream[discarded * channels..][frame * channels + channel] ==
            stream[(discarded + frame) * channels + channel]
  {
    var skipped, offset, position := discarded * channels, frame * channels, (discarded + frame) * channels;
    Distribute(discarded, frame, channels);
    assert position == skipped + offset;
    Distribute(discarded + frame, 1, channels);
    assert position + channels <= |stream| by {
      MulMonotone(discarded + frame + 1, frames, channels);
    }
  }

  lemma PositionBeforeEnd(c: AudioResamplerConfig, frames: nat, k: nat)
    requires c.Valid() && SourceFrame(c, k) < frames
    ensures k * c.inputRate < frames * c.outputRate
  {
    MulMonotone(SourceFrame(c, k) + 1, frames, c.outputRate);
    Distribute(SourceFrame(c, k), 1, c.outputRate);
  }

  lemma Rebase(position: nat, consumed: nat, outputRate: nat)
    requires 0 < outputRate && consumed <= position / outputRate
    ensures consumed * outputRate <= position
    ensures consumed == position / outputRate ==> position - consumed * outputRate < outputRate
  {
    assert position == (position / outputRate) * outputRate + position % outputRate;
    MulMonotone(consumed, position / outputRate, outputRate);
  }

  class StreamingLinearAudioResampler<S> {
    const config: AudioResamplerConfig
    const channels: nat
    const interpolate: Interpolation<S>
    var bufferedSamples: Buffer<S>
    var nextPosition: nat        // a u64

    ghost var heard: seq<S>      // every sample accepted so far
    ghost var heardFrames: nat   // ... in frames
    ghost var discarded: nat     // frames dropped from the front of the buffer so far
    ghost var emitted: nat       // frames written so far

    // The buffer is a suffix of the stream, and the rebased position still stands for
    // emitted * inputRate: discarded * outputRate + nextPosition = emitted * inputRate.
    ghost predicate Tracking()
      reads this
    {
      && config.Valid() && channels == config.channels
      && |heard| == heardFrames * channels
      && discarded <= heardFrames
      && discarded * channels <= |heard|
      && bufferedSamples.items == heard[discarded * channels..] && bufferedSamples.Fits()
      && discarded * config.outputRate + nextPosition == emitted * config.inputRate
      && emitted <= FrameCount(config, heardFrames)
      && nextPosition <= U64_MAX
    }

    // Between calls: everything the input determines has been written, at most one frame
    // stays buffered and the position is small, however long the stream.
    ghost predicate Valid()
      reads this
    {
      && Tracking()
      && emitted == FrameCount(config, heardFrames)
      && heardFrames - discarded <= 1 && discarded == Discarded(config, heardFrames)
      && (nextPosition < config.inputRate || nextPosition < config.outputRate)
    }

    constructor Create(config: AudioResamplerConfig, interpolate: Interpolation<S>)
      requires config.Valid()
      ensures Valid() && heard == [] && this.config == config && this.interpolate == interpolate
      ensures bufferedSamples == Buffer([], 0)
    {
      this.config, this.channels, this.interpolate := config, config.channels, interpolate;
      bufferedSamples := Buffer([], 0);
      nextPosition := 0;
      heard, heardFrames, discarded, emitted := [], 0, 0, 0;
    }

    static method New(config: AudioResamplerConfig, interpolate: Interpolation<S>)
      returns (r: Result<StreamingLinearAudioResampler<S>>)
      ensures r.Ok? <==> config.Valid()
      ensures r.Err? ==> r.error == InvalidConfig(config)
      ensures r.Ok? ==> fresh(r.value) && r.value.Valid() && r.value.heard == [] && r.value.config == config
                        && r.value.interpolate == interpolate && r.value.bufferedSamples == Buffer([], 0)
    {
      if ValidateConfig(config).Err? {
        return Err(InvalidConfig(config));
      }
      var resampler := new StreamingLinearAudioResampler<S>.Create(config, interpolate);
      r := Ok(resampler);
    }

    lemma OneFrameBuffered()
      requires Valid()
      ensures |bufferedSamples.items| <= channels
    {
      Distribute(discarded, heardFrames - discarded, channels);
      MulMonotone(heardFrames - discarded, 1, channels);
    }

    lemma NothingHeard()
      requires Valid() && heard == []
      ensures emitted == 0 && Resampled(config, interpolate, heard) == []
    {
      HeardFrames();
    }

    method ReserveInput(frames: nat) returns (r: Result<()>)
      requires Valid()
      modifies this`bufferedSamples
      ensures Valid() && bufferedSamples.items == old(bufferedSamples.items)
      ensures (frames + INTERPOLATION_MARGIN_FRAMES) * channels > USIZE_MAX ==>
                r == Err(CapacityOverflow) && bufferedSamples == old(bufferedSamples)
      ensures (frames + INTERPOLATION_MARGIN_FRAMES) * channels <= USIZE_MAX ==>
                r.Ok? && 0 <= (frames + INTERPOLATION_MARGIN_FRAMES) * channels
                && bufferedSamples == old(bufferedSamples).Reserve((frames + INTERPOLATION_MARGIN_FRAMES) * channels)
    {
      MulMonotone(1, channels, frames + INTERPOLATION_MARGIN_FRAMES);
      if frames + INTERPOLATION_MARGIN_FRAMES > USIZE_MAX
         || (frames + INTERPOLATION_MARGIN_FRAMES) * channels > USIZE_MAX {
        return Err(CapacityOverflow);
      }
      bufferedSamples := bufferedSamples.Reserve((frames + INTERPOLATION_MARGIN_FRAMES) * channels);
      r := Ok(());
    }

    // The buffer holds whole frames, and the position inside it agrees with the stream's.
    lemma PositionInStream()
      requires Tracking()
      ensures |bufferedSamples.items| / channels == heardFrames - discarded
      ensures 0 <= nextPosition / config.outputRate
      ensures nextPosition / config.outputRate + discarded == SourceFrame(config, emitted)
      ensures nextPosition % config.outputRate == Fraction(config, emitted)
    {
      Distribute(discarded, heardFrames - discarded, channels);
      DivUnique(|bufferedSamples.items|, channels, heardFrames - discarded, 0);
      DivShift(nextPosition, config.outputRate, discarded);
    }

    lemma FrameInRange()
      requires Tracking() && LastSourceFrame(config, emitted) < heardFrames
      ensures (LastSourceFrame(config, emitted) + 1) * channels <= |heard|
    {
      MulMonotone(LastSourceFrame(config, emitted) + 1, heardFrames, channels);
    }

    lemma HeardFrames()
      requires Tracking()
      ensures |heard| / channels == heardFrames
      ensures Determined(config, |heard|, emitted)
    {
      DivUnique(|heard|, channels, heardFrames, 0);
      FramesDetermined(config, |heard|);
    }

    // Everything written so far, as a function of the whole stream.
    ghost function Written(): seq<S>
      requires Tracking()
      reads this
    {
      HeardFrames();
      OutputFrames(config, interpolate, heard, emitted)
    }

    lemma WrittenIsResampled()
      requires Tracking() && emitted == FrameCount(config, heardFrames)
      ensures Written() == Resampled(config, interpolate, heard)
    {
      HeardFrames();
    }

    // Input is buffered whole; nothing is written or dropped yet.
    method Accept(input: seq<S>, ghost frames: nat)
      requires Valid() && |input| == frames * channels
      modifies this
      ensures Tracking() && Written() == old(Written())
      ensures heard == old(heard) + input && heardFrames == old(heardFrames) + frames
      ensures emitted == old(emitted) && discarded == old(discarded) && nextPosition == old(nextPosition)
      ensures bufferedSamples == old(bufferedSamples).Append(input)
    {
      HeardFrames();
      OutputFramesStable(config, interpolate, heard, input, emitted);
      Distribute(heardFrames, frames, channels);
      FrameCountMonotone(config, heardFrames, heardFrames + frames);
      bufferedSamples := bufferedSamples.Append(input);
      heard, heardFrames := heard + input, heardFrames + frames;
    }

    method Advance()
      requires Tracking() && emitted < FrameCount(config, heardFrames)
      requires (LastSourceFrame(config, emitted) + 1) * channels <= |heard|
      requires nextPosition + config.inputRate <= U64_MAX
      modifies this`nextPosition, this`emitted
      ensures Tracking() && emitted == old(emitted) + 1
      ensures Written() == old(Written()) + OutputFrame(config, interpolate, heard, old(emitted))
      ensures nextPosition == old(nextPosition) + config.inputRate
    {
      Distribute(emitted, 1, config.inputRate);
      nextPosition := nextPosition + config.inputRate;
      emitted := emitted + 1;
      HeardFrames();
    }

    // The samples the code reads from its buffer are the ones the whole stream prescribes.
    lemma NextSample(frame: nat, nextFrame: nat, channel: nat)
      requires Tracking() && channel < channels
      requires discarded + frame == SourceFrame(config, emitted)
      requires discarded + nextFrame == LastSourceFrame(config, emitted) < heardFrames
      requires (LastSourceFrame(config, emitted) + 1) * channels <= |heard|
      ensures 0 <= frame * channels + channel < |bufferedSamples.items|
      ensures 0 <= nextFrame * channels + channel < |bufferedSamples.items|
      ensures interpolate(bufferedSamples.items[frame * channels + channel],
                          bufferedSamples.items[nextFrame * channels + channel],
                          Fraction(config, emitted), config.outputRate)
              == OutputFrame(config, interpolate, heard, emitted)[channel]
    {
      SuffixSample(heard, heardFrames, channels, discarded, frame, channel);
      SuffixSample(heard, heardFrames, channels, discarded, nextFrame, channel);
      OutputFrameAt(config, interpolate, heard, emitted, discarded + frame, discarded + nextFrame, channel);
    }

    // The channel loop of `write_next_frame`.
    method PushFrame(output: Buffer<S>, frame: nat, fraction: nat) returns (output': Buffer<S>)
      requires Tracking() && output.Fits() && LastSourceFrame(config, emitted) < heardFrames
      requires discarded + frame == SourceFrame(config, emitted) && fraction == Fraction(config, emitted)
      requires (LastSourceFrame(config, emitted) + 1) * channels <= |heard|
      ensures output'.items == output.items + OutputFrame(config, interpolate, heard, emitted)
      ensures output'.capacity == Max(output.capacity, |output'.items|)
    {
      output' := output;
      ghost var target := OutputFrame(config, interpolate, heard, emitted);
      for channel := 0 to channels
        invariant output'.items == output.items + target[..channel]
        invariant output'.capacity == Max(output.capacity, |output'.items|)
      {
        var nextFrame := frame + if fraction != 0 then 1 else 0;
        NextSample(frame, nextFrame, channel);
        var current := bufferedSamples.items[frame * channels + channel];
        var next := bufferedSamples.items[nextFrame * channels + channel];
        output' := output'.Append([interpolate(current, next, fraction, config.outputRate)]);
      }
    }

    method WriteNextFrame(output: Buffer<S>) returns (written: bool, output': Buffer<S>)
      requires Tracking() && output.Fits()
      ensures written <==> emitted < FrameCount(config, heardFrames)
      ensures !written ==> output' == output
      ensures written ==> emitted * config.inputRate < heardFrames * config.outputRate
      ensures written ==> (LastSourceFrame(config, emitted) + 1) * channels <= |heard|
      ensures written ==> output'.items == output.items + OutputFrame(config, interpolate, heard, emitted)
      ensures output'.capacity == Max(output.capacity, |output'.items|)
    {
      var frameCount := |bufferedSamples.items| / channels;
      var frame := nextPosition / config.outputRate;
      var fraction := nextPosition % config.outputRate;
      PositionInStream();
      FrameAvailable(config, heardFrames, emitted);
      if frame >= frameCount || (fraction != 0 && frame + 1 >= frameCount) {
        return false, output;
      }
      FrameInRange();
      PositionBeforeEnd(config, heardFrames, emitted);
      output' := PushFrame(output, frame, fraction);
      written := true;
    }

    // Where the position would be after the last frame the input determines.
    ghost function FinalPosition(): int
      requires config.Valid()
      reads this
    {
      FrameCount(config, heardFrames) * config.inputRate - discarded * config.outputRate
    }

    lemma BeforeFinal()
      requires Tracking() && emitted < FrameCount(config, heardFrames)
      ensures nextPosition + config.inputRate <= FinalPosition()
    {
      Distribute(emitted, 1, config.inputRate);
      MulMonotone(emitted + 1, FrameCount(config, heardFrames), config.inputRate);
    }

    // The loop of `process_into`, from a buffer that already holds the new input. The addition to
    // the position overflows exactly if the final position does not fit; then nothing is promised.
    method WriteAvailableFrames(output: Buffer<S>, ghost before: nat) returns (output': Buffer<S>, overflow: bool)
      requires Tracking() && output.Fits() && before == emitted
      modifies this`nextPosition, this`emitted
      ensures overflow <==> FinalPosition() > U64_MAX
      ensures !overflow ==> Tracking() && emitted == FrameCount(config, heardFrames) && nextPosition == FinalPosition()
      ensures !overflow ==> old(Written()) <= Written() && output'.items == output.items + Written()[|old(Written())|..]
      ensures !overflow ==> before <= emitted && |output'.items| == |output.items| + (emitted - before) * channels
      ensures output'.capacity == Max(output.capacity, |output'.items|)
      ensures !overflow ==> nextPosition == old(nextPosition) || discarded * config.outputRate + nextPosition <
                                                               heardFrames * config.outputRate + config.inputRate
    {
      output', overflow := output, false;
      ghost var added := [];
      ghost var start, end := discarded * config.outputRate, heardFrames * config.outputRate;
      while true
        invariant Tracking() && before <= emitted && |added| == (emitted - before) * channels
        invariant output'.items == output.items + added && old(Written()) + added == Written()
        invariant output'.capacity == Max(output.capacity, |output'.items|)
        invariant nextPosition == old(nextPosition) || start + nextPosition < end + config.inputRate
        decreases FrameCount(config, heardFrames) - emitted
      {
        var written;
        written, output' := WriteNextFrame(output');
        if !written {
          break;
        }
        BeforeFinal();
        if nextPosition + config.inputRate > U64_MAX {
          return output', true;
        }
        Distribute(emitted - before, 1, channels);
        added := added + OutputFrame(config, interpolate, heard, emitted);
        Advance();
      }
    }

    // What dropping the consumed frames and rebasing the position comes to.
    lemma Rebased(consumedFrames: nat)
      requires Tracking() && emitted == FrameCount(config, heardFrames)
      requires nextPosition < config.inputRate || nextPosition < config.outputRate
               || discarded * config.outputRate + nextPosition < heardFrames * config.outputRate + config.inputRate
      requires 0 <= nextPosition / config.outputRate && 0 <= |bufferedSamples.items| / channels
      requires consumedFrames == if nextPosition / config.outputRate <= |bufferedSamples.items| / channels
                                 then nextPosition / config.outputRate else |bufferedSamples.items| / channels
      ensures 0 <= consumedFrames * channels <= |bufferedSamples.items|
      ensures 0 <= (discarded + consumedFrames) * channels <= |heard| && discarded + consumedFrames <= heardFrames
      ensures bufferedSamples.items[consumedFrames * channels..] == heard[(discarded + consumedFrames) * channels..]
      ensures var position := nextPosition - consumedFrames * config.outputRate;
              && 0 <= position <= nextPosition && (position < config.inputRate || position < config.outputRate)
              && (discarded + consumedFrames) * config.outputRate + position == emitted * config.inputRate
      ensures heardFrames - (discarded + consumedFrames) <= 1
      ensures discarded + consumedFrames == Discarded(config, heardFrames)
    {
      PositionInStream();
      FrameAvailable(config, heardFrames, emitted);
      Distribute(discarded, consumedFrames, channels);
      MulMonotone(discarded + consumedFrames, heardFrames, channels);
      Distribute(discarded, consumedFrames, config.outputRate);
      Rebase(nextPosition, consumedFrames, config.outputRate);
    }

    method DiscardConsumedFrames()
      requires Tracking() && emitted == FrameCount(config, heardFrames)
      requires nextPosition < config.inputRate || nextPosition < config.outputRate
               || discarded * config.outputRate + nextPosition < heardFrames * config.outputRate + config.inputRate
      modifies this
      ensures Valid() && heard == old(heard) && emitted == old(emitted) && heardFrames == old(heardFrames)
      ensures bufferedSamples.capacity == old(bufferedSamples.capacity)
    {
      var outputRate := config.outputRate;
      var availableFrames := |bufferedSamples.items| / channels;
      PositionInStream();
      var consumedFrames := nextPosition / outputRate;
      if availableFrames < consumedFrames {
        consumedFrames := availableFrames;
      }
      Rebased(consumedFrames);
      bufferedSamples := bufferedSamples.DrainFront(consumedFrames * channels);
      nextPosition := nextPosition - consumedFrames * outputRate;
      discarded := discarded + consumedFrames;
    }

    // The part of `process_into` after its checks.
    method Consume(input: seq<S>, output: Buffer<S>, ghost frames: nat) returns (output': Buffer<S>, overflow: bool)
      requires Valid() && output.Fits() && |input| == frames * channels
      modifies this
      ensures overflow <==> PeakPosition(config, old(heardFrames), frames) > U64_MAX
      ensures !overflow ==> Valid() && heard == old(heard) + input && heardFrames == old(heardFrames) + frames
      ensures !overflow ==> output'.items == output.items + Emission(config, interpolate, old(heard), input)
      ensures !overflow ==> && old(emitted) <= emitted
                            && |output'.items| == |output.items| + (emitted - old(emitted)) * channels
      ensures output'.capacity == Max(output.capacity, |output'.items|)
      ensures !overflow ==> bufferedSamples.capacity == old(bufferedSamples).Append(input).capacity
    {
      WrittenIsResampled();
      Accept(input, frames);
      output', overflow := WriteAvailableFrames(output, emitted);
      if overflow {
        return;
      }
      DiscardConsumedFrames();
      WrittenIsResampled();
    }

    /** A call overflows its position exactly if the peak of the position does not fit; otherwise it
        appends what the whole stream prescribes. */
    method ProcessInto(input: seq<S>, output: Buffer<S>) returns (r: Result<()>, output': Buffer<S>, overflow: bool)
      requires Valid() && output.Fits()
      modifies this
      ensures r == Rejection(config, input)
      ensures r == Err(IncompleteFrame(|input|, channels)) <==> |input| % channels != 0
      ensures r.Ok? <==>
              && |input| % channels == 0
              && |input| / channels * config.outputRate <= 0xFFFF_FFFF_FFFF_FFFF
              && (|input| / channels * config.outputRate / config.inputRate + 2) * channels <= 0xFFFF_FFFF_FFFF_FFFF
      ensures r.Err? && |input| % channels == 0 ==> r == Err(CapacityOverflow)
      ensures overflow <==> r.Ok? && PeakPosition(config, old(heardFrames), |input| / channels) > 0xFFFF_FFFF_FFFF_FFFF
      ensures !overflow ==> Valid() && output'.Fits()
      ensures r.Err? ==> output' == output && unchanged(this)
      ensures r.Ok? && !overflow ==> heard == old(heard) + input
      ensures r.Ok? && !overflow ==> output'.items == output.items + Emission(config, interpolate, old(heard), input)
      ensures r.Ok? && !overflow ==> old(emitted) <= emitted &&
                                     |output'.items| == |output.items| + (emitted - old(emitted)) * channels
      ensures r.Ok? ==> output.Reserve(OutputCapacity(config, |input|).value).capacity <= output'.capacity
      ensures r.Ok? && !overflow ==> output'.capacity == output.Reserve(OutputCapacity(config, |input|).value).capacity
      ensures r.Ok? && !overflow ==> bufferedSamples.capacity == old(bufferedSamples).Append(input).capacity
    {
      overflow := false;
      RejectionExactly(config, input);
      var valid := ValidateInput(input, channels);
      if valid.Err? {
        return valid, output, false;
      }
      var capacity := OutputCapacity(config, |input|);
      if capacity.Err? {
        return Err(capacity.error), output, false;
      }
      ghost var frames, before, heardBefore := |input| / channels, emitted, heardFrames;
      output', overflow := Consume(input, output.Reserve(capacity.value), frames);
      r := Ok(());
      if overflow {
        return;
      }
      ReservedSpaceSuffices(config, heardBefore, |input|, emitted - before);
      Distribute(emitted - before, 1, channels);
    }
  }

  // One call of a run: what is out and what is still to come add up to the same.
  lemma RunStep<S>(c: AudioResamplerConfig, mix: Interpolation<S>, heard: seq<S>, chunks: seq<seq<S>>, i: nat,
                   before: seq<S>, after: seq<S>, heardAfter: seq<S>)
    requires c.Valid() && i < |chunks|
    requires if Rejection(c, chunks[i]).Err? then after == before && heardAfter == heard
             else after == before + Emission(c, mix, heard, chunks[i]) && heardAfter == heard + chunks[i]
    ensures before + RunOutput(c, mix, heard, chunks[i..]) == after + RunOutput(c, mix, heardAfter, chunks[i + 1..])
  {
    var rest := chunks[i..];
    assert rest[0] == chunks[i] && rest[1..] == chunks[i + 1..];
  }

  /** Any run of calls on a new resampler emits what the stream of its accepted input prescribes;
      no position overflows if no chunk is too long for that. */
  method ProcessChunks<S>(config: AudioResamplerConfig, interpolate: Interpolation<S>, chunks: seq<seq<S>>)
    returns (output: Buffer<S>, overflow: bool)
    requires config.Valid()
    ensures !overflow ==> output.items == RunOutput(config, interpolate, [], chunks)
    ensures !overflow ==> output.items == Resampled(config, interpolate, Accepted(config, chunks))
    ensures (forall chunk | chunk in chunks ::
               |chunk| / config.channels * config.outputRate + config.inputRate <= U64_MAX)
            ==> !overflow
  {
    var resampler := new StreamingLinearAudioResampler<S>.Create(config, interpolate);
    output, overflow := Buffer([], 0), false;
    for i := 0 to |chunks|
      invariant fresh(resampler) && resampler.Valid() && output.Fits()
      invariant resampler.config == config && resampler.interpolate == interpolate
      invariant output.items + RunOutput(config, interpolate, resampler.heard, chunks[i..]) ==
                RunOutput(config, interpolate, [], chunks)
    {
      ghost var before, heard := output.items, resampler.heard;
      DivNonneg(|chunks[i]|, config.channels);
      PositionBound(config, resampler.heardFrames, |chunks[i]| / config.channels);
      var r;
      r, output, overflow := resampler.ProcessInto(chunks[i], output);
      if overflow {
        return;
      }
      RunStep(config, interpolate, heard, chunks, i, before, output.items, resampler.heard);
    }
    ChunkingDoesNotMatter(config, interpolate, chunks);
  }

  lemma PacketSizes(outputFrames: nat, channels: nat)
    ensures 0 <= outputFrames * channels <= (2 * outputFrames + INTERPOLATION_MARGIN_FRAMES) * channels
    ensures outputFrames * channels * PENDING_PACKET_CAPACITY + channels * INTERPOLATION_MARGIN_FRAMES ==
            (2 * outputFrames + INTERPOLATION_MARGIN_FRAMES) * channels
  {
    Distribute(2 * outputFrames, INTERPOLATION_MARGIN_FRAMES, channels);
    Distribute(outputFrames, outputFrames, channels);
  }

  // Some capacity `new` computes does not fit in `usize`.
  ghost predicate TooLarge(config: AudioResamplerConfig, outputFrames: nat)
    requires config.Valid()
  {
    || outputFrames * config.inputRate > USIZE_MAX
    || (2 * outputFrames + INTERPOLATION_MARGIN_FRAMES) * config.channels > USIZE_MAX
    || (InputFramesPerPacket(config, outputFrames) + INTERPOLATION_MARGIN_FRAMES) * config.channels > USIZE_MAX
  }

  // `total` pending frames make total / outputFrames packets and leave total % outputFrames frames.
  lemma CutArithmetic(samples: nat, outputFrames: nat, channels: nat, total: nat, delivered: nat)
    requires 0 < outputFrames && 0 < channels && samples == total * channels
    ensures 0 < outputFrames * channels && 0 <= samples / (outputFrames * channels) == total / outputFrames
    ensures 0 <= samples / (outputFrames * channels) * (outputFrames * channels) <= samples
    ensures samples - samples / (outputFrames * channels) * (outputFrames * channels) == total % outputFrames * channels
    ensures delivered * outputFrames + total ==
            (delivered + samples / (outputFrames * channels)) * outputFrames + total % outputFrames
  {
    DivScale(total, outputFrames, channels);
    Distribute(delivered, total / outputFrames, outputFrames);
    MulMonotone(0, total % outputFrames, channels);
    MulMonotone(0, total / outputFrames, outputFrames * channels);
  }

  class FixedFrameAudioResampler<S> {
    const resampler: StreamingLinearAudioResampler<S>
    const outputSamples: nat
    var pendingSamples: Buffer<S>

    ghost const outputFrames: nat
    ghost var pendingFrames: nat
    ghost var delivered: seq<seq<S>>   // every packet handed out so far

    ghost predicate Shape()
      reads this, resampler
    {
      && 0 < outputFrames && outputSamples == outputFrames * resampler.channels
      && forall packet | packet in delivered :: |packet| == outputSamples
    }

    ghost function Stream(): seq<S>
      requires resampler.Valid()
      reads resampler
    {
      Resampled(resampler.config, resampler.interpolate, resampler.heard)
    }

    // Packets delivered so far, then the pending samples, are exactly the resampled stream;
    // the pending part is a whole number of frames and less than a packet.
    ghost predicate Valid()
      reads this, resampler
    {
      && resampler.Valid() && Shape() && pendingSamples.Fits()
      && pendingFrames < outputFrames && |pendingSamples.items| == pendingFrames * resampler.channels
      && resampler.emitted == |delivered| * outputFrames + pendingFrames
      && Flatten(delivered) + pendingSamples.items == Stream()
    }

    // The capacities `new` reserves for packets and for input.
    ghost predicate PacketsPreallocated()
      requires resampler.config.Valid()
      reads this, resampler
    {
      pendingSamples.capacity == PacketCapacity(resampler.config, outputFrames)
    }

    ghost predicate InputPreallocated()
      requires resampler.config.Valid()
      reads this, resampler
    {
      resampler.bufferedSamples.capacity ==
      (InputFramesPerPacket(resampler.config, outputFrames) + INTERPOLATION_MARGIN_FRAMES) * resampler.channels
    }

    constructor Create(resampler: StreamingLinearAudioResampler<S>, outputFrames: nat, outputSamples: nat,
                       capacity: nat)
      requires resampler.Valid() && resampler.heard == []
      requires 0 < outputFrames && outputSamples == outputFrames * resampler.channels
      ensures Valid() && delivered == [] && pendingSamples == Buffer([], capacity)
      ensures this.resampler == resampler && this.outputFrames == outputFrames
    {
      this.resampler, this.outputSamples, this.outputFrames := resampler, outputSamples, outputFrames;
      pendingSamples, pendingFrames, delivered := Buffer([], capacity), 0, [];
      new;
      resampler.NothingHeard();
    }

    static method New(config: AudioResamplerConfig, outputFrames: nat, interpolate: Interpolation<S>)
      returns (r: Result<FixedFrameAudioResampler<S>>)
      ensures outputFrames == 0 ==> r == Err(InvalidOutputFrameSize(outputFrames))
      ensures outputFrames != 0 && !config.Valid() ==> r == Err(InvalidConfig(config))
      ensures outputFrames != 0 && config.Valid() ==>
                if TooLarge(config, outputFrames) then r == Err(CapacityOverflow) else r.Ok?
      ensures r.Ok? <==>
              && outputFrames != 0 && config.inputRate != 0 && config.outputRate != 0 && config.channels != 0
              && outputFrames * config.inputRate <= 0xFFFF_FFFF_FFFF_FFFF
              && (2 * outputFrames + 2) * config.channels <= 0xFFFF_FFFF_FFFF_FFFF
              && (InputFramesPerPacket(config, outputFrames) + 2) * config.channels <= 0xFFFF_FFFF_FFFF_FFFF
      ensures r.Ok? ==> && fresh(r.value) && fresh(r.value.resampler) && r.value.Valid()
                        && r.value.PacketsPreallocated() && r.value.InputPreallocated()
                        && r.value.delivered == [] && r.value.resampler.heard == []
                        && r.value.outputFrames == outputFrames && r.value.resampler.config == config
                        && r.value.resampler.interpolate == interpolate
    {
      if outputFrames == 0 {
        return Err(InvalidOutputFrameSize(outputFrames));
      }
      var valid := ValidateConfig(config);
      if valid.Err? {
        return Err(InvalidConfig(config));
      }
      var channels := valid.value;
      PacketSizes(outputFrames, channels);
      var outputSamples := outputFrames * channels;
      if outputSamples > USIZE_MAX || outputFrames * config.inputRate > USIZE_MAX {
        return Err(CapacityOverflow);
      }
      var inputFrames := CeilDiv(outputFrames * config.inputRate, config.outputRate);
      var capacity := outputSamples * PENDING_PACKET_CAPACITY + channels * INTERPOLATION_MARGIN_FRAMES;
      if capacity > USIZE_MAX {
        return Err(CapacityOverflow);
      }
      r := Assemble(config, outputFrames, interpolate, inputFrames, outputSamples, capacity);
    }

    // The last three statements of `new`.
    static method Assemble(config: AudioResamplerConfig, outputFrames: nat, interpolate: Interpolation<S>,
                           inputFrames: nat, outputSamples: nat, capacity: nat)
      returns (r: Result<FixedFrameAudioResampler<S>>)
      requires config.Valid() && 0 < outputFrames && outputSamples == outputFrames * config.channels
      ensures if (inputFrames + INTERPOLATION_MARGIN_FRAMES) * config.channels > USIZE_MAX
              then r == Err(CapacityOverflow) else r.Ok?
      ensures r.Ok? ==> && fresh(r.value) && fresh(r.value.resampler) && r.value.Valid()
                        && r.value.delivered == [] && r.value.resampler.heard == []
                        && r.value.outputFrames == outputFrames && r.value.resampler.config == config
                        && r.value.resampler.interpolate == interpolate
                        && r.value.pendingSamples.capacity == capacity
                        && r.value.resampler.bufferedSamples.capacity ==
                           (inputFrames + INTERPOLATION_MARGIN_FRAMES) * config.channels
    {
      var resampler := new StreamingLinearAudioResampler<S>.Create(config, interpolate);
      var reserved := resampler.ReserveInput(inputFrames);
      if reserved.Err? {
        return Err(CapacityOverflow);
      }
      var fixedFrame := new FixedFrameAudioResampler<S>.Create(resampler, outputFrames, outputSamples, capacity);
      r := Ok(fixedFrame);
    }

    // A chunk no larger than a packet needs.
    ghost predicate Regular(input: seq<S>)
      requires resampler.config.Valid()
      reads this, resampler
    {
      |input| <= InputFramesPerPacket(resampler.config, outputFrames) * resampler.channels
    }

    // The frames pending are those of the stream heard, whatever the calls were.
    lemma PendingOfStream()
      requires Valid()
      ensures pendingFrames == Pending(resampler.config, outputFrames, resampler.heardFrames)
    {
      DivUnique(resampler.emitted, outputFrames, |delivered|, pendingFrames);
    }

    /** The packet buffer keeps its capacity exactly if the call asks for no more frames than it holds. */
    lemma GrowsUnlessFits(input: seq<S>)
      requires Valid() && PacketsPreallocated() && Rejection(resampler.config, input).Ok?
      ensures pendingSamples.Reserve(OutputCapacity(resampler.config, |input|).value).capacity
              == pendingSamples.capacity
              <==> FitsPreallocation(resampler.config, outputFrames, pendingFrames, |input| / resampler.channels)
    {
      DivNonneg(|input|, resampler.channels);
      ReserveAsks(input);
      AskedFits(resampler.config, outputFrames, pendingFrames, |input| / resampler.channels);
    }

    // What a call reserves, in the terms of a run.
    lemma ReserveAsks(input: seq<S>)
      requires Valid() && Rejection(resampler.config, input).Ok?
      ensures 0 <= |input| / resampler.channels
      ensures pendingSamples.Reserve(OutputCapacity(resampler.config, |input|).value).capacity
              == Max(pendingSamples.capacity, Asked(resampler.config, pendingFrames, |input| / resampler.channels))
    {
      var c := resampler.config;
      DivNonneg(|input|, c.channels);
      Distribute(pendingFrames, ScaledFrames(c, |input| / c.channels) + INTERPOLATION_MARGIN_FRAMES, c.channels);
    }

    lemma CallCapacity(input: seq<S>)
      requires Valid() && Rejection(resampler.config, input).Ok?
      ensures pendingSamples.Reserve(OutputCapacity(resampler.config, |input|).value).capacity
              == CapacityStep(resampler.config, outputFrames, |resampler.heard|, pendingSamples.capacity, input)
    {
      DivUnique(|resampler.heard|, resampler.channels, resampler.heardFrames, 0);
      PendingOfStream();
      ReserveAsks(input);
    }

    /** With the capacity of `new`, no regular chunk makes the packet buffer grow, if the largest one
        accepted fits on the most frames a run leaves pending ... */
    lemma PacketsNeverGrow(input: seq<S>)
      requires Valid() && PacketsPreallocated() && Regular(input) && Rejection(resampler.config, input).Ok?
      requires Roomy(resampler.config, outputFrames)
      ensures pendingSamples.Reserve(OutputCapacity(resampler.config, |input|).value).capacity
              == pendingSamples.capacity
    {
      var c, channels := resampler.config, resampler.channels;
      CeilingOfFrames(|input|, InputFramesPerPacket(c, outputFrames), channels);
      PreallocationExactly(c, outputFrames);
      PendingOfStream();
      DivNonneg(|input|, channels);
      assert Admissible(c, |input| / channels);
      assert FitsPreallocation(c, outputFrames, Pending(c, outputFrames, resampler.heardFrames), |input| / channels);
      GrowsUnlessFits(input);
    }

    /** ... and none ever makes the input buffer grow. */
    lemma InputNeverGrows(input: seq<S>)
      requires Valid() && InputPreallocated() && Regular(input)
      ensures resampler.bufferedSamples.Append(input).capacity == resampler.bufferedSamples.capacity
    {
      resampler.OneFrameBuffered();
      Distribute(InputFramesPerPacket(resampler.config, outputFrames), INTERPOLATION_MARGIN_FRAMES, resampler.channels);
    }

    /** How many packets there are, and what is in each, depends only on the stream heard so far. */
    lemma PacketsOfStream(i: nat)
      requires Valid()
      ensures |delivered| == FrameCount(resampler.config, resampler.heardFrames) / outputFrames
      ensures pendingFrames == FrameCount(resampler.config, resampler.heardFrames) % outputFrames
      ensures i < |delivered| ==>
                && 0 <= i * outputSamples <= i * outputSamples + outputSamples <= |Stream()|
                && delivered[i] == Stream()[i * outputSamples..i * outputSamples + outputSamples]
    {
      DivUnique(resampler.emitted, outputFrames, |delivered|, pendingFrames);
      if i < |delivered| {
        PacketAt(delivered, outputSamples, i);
        assert Stream()[..|Flatten(delivered)|] == Flatten(delivered);
      }
    }

    lemma CapacitiesInRegularUse(input: seq<S>)
      requires Valid() && Regular(input) && Rejection(resampler.config, input).Ok?
      ensures PacketsPreallocated() && Roomy(resampler.config, outputFrames) ==>
                pendingSamples.Reserve(OutputCapacity(resampler.config, |input|).value).capacity
                == pendingSamples.capacity
      ensures InputPreallocated() ==>
                resampler.bufferedSamples.Append(input).capacity == resampler.bufferedSamples.capacity
    {
      if PacketsPreallocated() && Roomy(resampler.config, outputFrames) {
        PacketsNeverGrow(input);
      }
      if InputPreallocated() {
        InputNeverGrows(input);
      }
    }

    method ProcessWith(input: seq<S>) returns (r: Result<()>, packets: seq<seq<S>>, overflow: bool)
      requires Valid()
      modifies this, resampler
      ensures r == Rejection(resampler.config, input)
      ensures overflow <==>
              && r.Ok?
              && PeakPosition(resampler.config, old(resampler.heardFrames), |input| / resampler.channels) > U64_MAX
      ensures !overflow ==> Valid()
      ensures r.Err? ==> packets == [] && unchanged(this) && unchanged(resampler)
      ensures r.Ok? && !overflow ==> resampler.heard == old(resampler.heard) + input
      ensures r.Ok? && !overflow ==> delivered == old(delivered) + packets
      ensures r.Ok? ==> old(pendingSamples.Reserve(OutputCapacity(resampler.config, |input|).value).capacity)
                        <= pendingSamples.capacity
      ensures r.Ok? && !overflow ==>
                pendingSamples.capacity
                == old(pendingSamples.Reserve(OutputCapacity(resampler.config, |input|).value).capacity)
      ensures old(PacketsPreallocated() && Regular(input) && Roomy(resampler.config, outputFrames)) && !overflow ==>
                PacketsPreallocated()
      ensures old(InputPreallocated() && Regular(input)) && !overflow ==> InputPreallocated()
    {
      if Regular(input) && Rejection(resampler.config, input).Ok? {
        CapacitiesInRegularUse(input);
      }
      var pending;
      r, pending, overflow := resampler.ProcessInto(input, pendingSamples);
      packets := [];
      if r.Err? || overflow {
        pendingSamples := pending;
        return;
      }
      ghost var before, written := pendingFrames, resampler.emitted - old(resampler.emitted);
      Distribute(before, written, resampler.channels);
      StreamAfter(resampler.config, resampler.interpolate, old(resampler.heard), input, Flatten(delivered),
                  old(pendingSamples.items));
      packets := DeliverComplete(pending, before + written);
    }

    // What the run so far comes to.
    ghost predicate HasRun(chunks: seq<seq<S>>)
      requires resampler.config.Valid() && 0 < outputFrames
      reads this, resampler
    {
      && resampler.heard == Accepted(resampler.config, chunks)
      && pendingSamples.capacity == RunCapacity(resampler.config, outputFrames, chunks)
    }

    // One call of a run.
    method ProcessNext(chunks: seq<seq<S>>, i: nat) returns (packets: seq<seq<S>>, overflow: bool)
      requires Valid() && i < |chunks| && HasRun(chunks[..i])
      modifies this, resampler
      ensures !overflow ==> Valid() && HasRun(chunks[..i + 1]) && delivered == old(delivered) + packets
      ensures overflow ==> RunCapacity(resampler.config, outputFrames, chunks[..i + 1]) <= pendingSamples.capacity
      ensures overflow ==>
                |chunks[i]| / resampler.channels * resampler.config.outputRate + resampler.config.inputRate > U64_MAX
    {
      DivNonneg(|chunks[i]|, resampler.channels);
      PositionBound(resampler.config, resampler.heardFrames, |chunks[i]| / resampler.channels);
      CapacityAfter(resampler.config, outputFrames, chunks, i);
      if Rejection(resampler.config, chunks[i]).Ok? {
        CallCapacity(chunks[i]);
      }
      var r;
      r, packets, overflow := ProcessWith(chunks[i]);
    }

    // Cut `pending` into packets, keep the rest.
    method DeliverComplete(pending: Buffer<S>, ghost total: nat) returns (packets: seq<seq<S>>)
      requires resampler.Valid() && Shape() && pending.Fits()
      requires |pending.items| == total * resampler.channels
      requires resampler.emitted == |delivered| * outputFrames + total
      requires Flatten(delivered) + pending.items == Stream()
      modifies this
      ensures Valid() && delivered == old(delivered) + packets
      ensures pendingSamples.capacity == pending.capacity
    {
      ghost var front := delivered;
      packets, pendingSamples := CutComplete(pending, outputSamples, outputFrames, resampler.channels, total, |front|);
      Rejoin(front, packets, pending.items, pendingSamples.items, outputSamples);
      assert |front + packets| == |front| + |packets|;
      delivered := front + packets;
      pendingFrames := total % outputFrames;
    }
  }

  /** A run of the wrapper: its packets and what is pending are what the stream of all accepted input
      prescribes, and the packet buffer has the capacity of the run. It is over when a position overflows. */
  method ProcessPackets<S>(config: AudioResamplerConfig, outputFrames: nat, interpolate: Interpolation<S>,
                           chunks: seq<seq<S>>)
    returns (packets: seq<seq<S>>, pending: Buffer<S>, calls: nat, overflow: bool)
    requires config.Valid() && 0 < outputFrames && !TooLarge(config, outputFrames)
    ensures calls <= |chunks| && (!overflow ==> calls == |chunks|)
    ensures !overflow ==>
              && Flatten(packets) + pending.items == Resampled(config, interpolate, Accepted(config, chunks))
              && forall packet | packet in packets :: |packet| == outputFrames * config.channels
    ensures !overflow ==> pending.capacity == RunCapacity(config, outputFrames, chunks)
    ensures overflow ==> RunCapacity(config, outputFrames, chunks[..calls]) <= pending.capacity
    ensures overflow ==>
              && 0 < calls
              && |chunks[calls - 1]| / config.channels * config.outputRate + config.inputRate > U64_MAX
  {
    var created := FixedFrameAudioResampler.New(config, outputFrames, interpolate);
    var fixed := created.value;
    packets, overflow := [], false;
    for i := 0 to |chunks|
      invariant fresh(fixed) && fresh(fixed.resampler) && fixed.Valid() && fixed.outputFrames == outputFrames
      invariant fixed.resampler.config == config && fixed.resampler.interpolate == interpolate
      invariant packets == fixed.delivered && fixed.HasRun(chunks[..i])
    {
      var more;
      more, overflow := fixed.ProcessNext(chunks, i);
      if overflow {
        return packets, fixed.pendingSamples, i + 1, true;
      }
      packets := packets + more;
    }
    assert chunks[..|chunks|] == chunks;
    return packets, fixed.pendingSamples, |chunks|, false;
  }

  // The input accepted and the capacity after one more call of a run.
  lemma CapacityAfter<S>(c: AudioResamplerConfig, outputFrames: nat, chunks: seq<seq<S>>, i: nat)
    requires c.Valid() && 0 < outputFrames && i < |chunks|
    ensures Accepted(c, chunks[..i + 1]) ==
            Accepted(c, chunks[..i]) + if Rejection(c, chunks[i]).Err? then [] else chunks[i]
    ensures RunCapacity(c, outputFrames, chunks[..i + 1]) ==
            CapacityStep(c, outputFrames, |Accepted(c, chunks[..i])|, RunCapacity(c, outputFrames, chunks[..i]),
                         chunks[i])
  {
    PrefixStep(chunks, i);
    AcceptedPush(c, chunks[..i], chunks[i]);
    PrefixOfPrefix(chunks, i + 1, i);
  }

  lemma StreamAfter<S>(c: AudioResamplerConfig, mix: Interpolation<S>, heard: seq<S>, input: seq<S>, front: seq<S>,
                       pending: seq<S>)
    requires c.Valid() && front + pending == Resampled(c, mix, heard)
    ensures front + (pending + Emission(c, mix, heard, input)) == Resampled(c, mix, heard + input)
  {
    EmissionExtends(c, mix, heard, input);
    Reassociate(front, pending, Emission(c, mix, heard, input));
  }

  lemma {:induction false} PacketAt<S>(packets: seq<seq<S>>, size: nat, i: nat)
    requires i < |packets| && forall packet | packet in packets :: |packet| == size
    ensures 0 <= i * size <= i * size + size <= |Flatten(packets)| == |packets| * size
    ensures Flatten(packets)[i * size..i * size + size] == packets[i]
  {
    var front, last := packets[..|packets| - 1], packets[|packets| - 1];
    assert last in packets && |last| == size;
    Distribute(|front|, 1, size);
    if front != [] {
      PacketAt(front, size, if i < |front| then i else 0);
    }
    MulMonotone(0, i, size);
  }

  lemma Rejoin<S>(front: seq<seq<S>>, packets: seq<seq<S>>, pending: seq<S>, rest: seq<S>, size: nat)
    requires Flatten(packets) + rest == pending
    requires forall packet | packet in front :: |packet| == size
    requires forall packet | packet in packets :: |packet| == size
    ensures Flatten(front + packets) + rest == Flatten(front) + pending
    ensures forall packet | packet in front + packets :: |packet| == size
  {
    FlattenConcat(front, packets);
    Reassociate(Flatten(front), Flatten(packets), rest);
  }

  // `total` frames in `pending` make total / outputFrames packets and leave total % outputFrames frames.
  method CutComplete<S>(pending: Buffer<S>, outputSamples: nat, ghost outputFrames: nat, ghost channels: nat,
                        ghost total: nat, ghost delivered: nat)
    returns (packets: seq<seq<S>>, rest: Buffer<S>)
    requires 0 < outputFrames && 0 < channels && pending.Fits()
    requires outputSamples == outputFrames * channels && |pending.items| == total * channels
    ensures forall packet | packet in packets :: |packet| == outputSamples
    ensures Flatten(packets) + rest.items == pending.items
    ensures |rest.items| == total % outputFrames * channels
    ensures delivered * outputFrames + total == (delivered + |packets|) * outputFrames + total % outputFrames
    ensures rest.Fits() && rest.capacity == pending.capacity
  {
    CutArithmetic(|pending.items|, outputFrames, channels, total, delivered);
    var count := |pending.items| / outputSamples;
    packets := CutPackets(pending.items, outputSamples, count);
    rest := pending.DrainFront(count * outputSamples);
  }

  // The `chunks_exact` loop of `process_with`: the packets handed to the callback, in order.
  method CutPackets<S>(items: seq<S>, size: nat, count: nat) returns (packets: seq<seq<S>>)
    requires count * size <= |items|
    ensures |packets| == count && forall packet | packet in packets :: |packet| == size
    ensures 0 <= count * size && Flatten(packets) == items[..count * size]
  {
    packets := [];
    for i := 0 to count
      invariant |packets| == i && forall packet | packet in packets :: |packet| == size
      invariant 0 <= i * size <= |items| && Flatten(packets) == items[..i * size]
    {
      Distribute(i, 1, size);
      MulMonotone(i + 1, count, size);
      var packet := items[i * size..i * size + size];
      assert (packets + [packet])[..|packets|] == packets;
      packets := packets + [packet];
      assert items[..(i + 1) * size] == items[..i * size] + packet;
    }
  }
}
