/**
 `AudioBuffer` of src/client.rs: the overwriting PCM ring, its watermark histogram, and the
 decision to skip ahead when the ring has been too full for too long.

 The ring comes from the `ringbuf` crate, which is not part of the repository; it is modelled
 as a circular array with the operations `AudioBuffer` uses.
 */
module AudioBuffer {
  import opened Arithmetic
  import opened Sequences

  const AUDIO_BUFFER_MS: nat := 3000
  const LEVELS: nat := 30
  const DROP_FRACTION: nat := 4
  const SHRINK_INTERVAL_MS: int := 12000

  // ---------------------------------------------------------------------------------------
  // The ring
  // ---------------------------------------------------------------------------------------

  class PcmRing<S(0)> {
    const data: array<S>
    var start: nat
    var len: nat

    ghost predicate Valid()
      reads this
    {
      0 < data.Length && start < data.Length && len <= data.Length
    }

    function Slot(i: nat): nat
      reads this
    {
      if start + i < data.Length then start + i else start + i - data.Length
    }

    // The queue the ring stands for, oldest sample first.
    ghost function Contents(): (s: seq<S>)
      requires Valid()
      reads this, data
      ensures |s| == len && forall i | 0 <= i < len :: s[i] == data[Slot(i)]
    {
      seq(len, i requires 0 <= i < len && Valid() reads this, data => data[Slot(i)])
    }

    constructor (capacity: nat)
      requires 0 < capacity
      ensures Valid() && fresh(data) && data.Length == capacity && Contents() == []
    {
      data := new S[capacity];
      start, len := 0, 0;
    }

    method PushOverwrite(x: S)
      requires Valid()
      modifies this, data
      ensures Valid() && Contents() == LastN(old(Contents()) + [x], data.Length)
    {
      if len == data.Length {
        data[start] := x;
        start := if start + 1 < data.Length then start + 1 else 0;
      } else {
        data[Slot(len)] := x;
        len := len + 1;
      }
    }

    method PushSliceOverwrite(buffer: seq<S>)
      requires Valid()
      modifies this, data
      ensures Valid() && Contents() == LastN(old(Contents()) + buffer, data.Length)
    {
      ghost var before := Contents();
      NothingPushed(before, buffer, data.Length);
      for i := 0 to |buffer|
        invariant Valid() && Contents() == LastN(before + buffer[..i], data.Length)
      {
        LastNStep(before + buffer[..i], buffer[i], data.Length);
        PrefixStep(buffer, i);
        Reassociate(before, buffer[..i], [buffer[i]]);
        PushOverwrite(buffer[i]);
      }
      assert buffer[..|buffer|] == buffer;
    }

    method Skip(count: nat)
      requires Valid() && count <= len
      modifies this
      ensures Valid() && Contents() == old(Contents())[count..]
    {
      start := Slot(count);
      len := len - count;
    }
  }

  lemma NothingPushed<S>(contents: seq<S>, buffer: seq<S>, capacity: nat)
    requires |contents| <= capacity
    ensures contents == LastN(contents + buffer[..0], capacity)
  {
    assert contents + buffer[..0] == contents;
  }

  // ---------------------------------------------------------------------------------------
  // The watermark histogram
  // ---------------------------------------------------------------------------------------

  // A fill level, with the samples per second the buffer had when it was recorded.
  datatype Level = Level(having: nat, rate: nat)

  // Which tenth of a second of audio a level falls into; the last bucket is open-ended.
  function Bucket(having: nat, rate: nat): (b: nat)
    requires 0 < rate
    ensures b < LEVELS
  {
    var i: nat := having * 10 / rate;
    if i > LEVELS - 1 then LEVELS - 1 else i
  }

  // Bucket b holds the levels from b tenths of a second on, and less than one more; the last bucket all above.
  lemma BucketExactly(having: nat, rate: nat, b: nat)
    requires 0 < rate
    ensures Bucket(having, rate) == b <==>
            b <= 29 && b * rate <= 10 * having && (b < 29 ==> 10 * having < (b + 1) * rate)
  {
    var i: nat := having * 10 / rate;
    DivBelow(b, having * 10, rate);
    DivBelow(b + 1, having * 10, rate);
    DivBelow(29, having * 10, rate);
  }

  ghost predicate Recorded(levels: seq<Level>) {
    forall level | level in levels :: 0 < level.rate
  }

  ghost function BucketCount(levels: seq<Level>, bucket: nat): nat
    requires Recorded(levels)
  {
    if levels == [] then 0 else
    var last := levels[|levels| - 1];
    BucketCount(levels[..|levels| - 1], bucket) + if Bucket(last.having, last.rate) == bucket then 1 else 0
  }

  ghost predicate Describes(histogram: seq<nat>, levels: seq<Level>) {
    && |histogram| == LEVELS && Recorded(levels)
    && forall bucket | 0 <= bucket < LEVELS :: histogram[bucket] == BucketCount(levels, bucket)
  }

  // `zero` is the length of the empty prefix.
  ghost predicate IsEmptyPrefix(histogram: seq<nat>, zero: nat) {
    && zero <= |histogram| && (forall i | 0 <= i < zero :: histogram[i] == 0)
    && (zero < |histogram| ==> histogram[zero] != 0)
  }

  // `max` is the first fullest bucket after bucket 0, or 0 if those are all empty.
  ghost predicate IsFirstFullest(histogram: seq<nat>, max: nat)
    requires |histogram| == LEVELS
  {
    if max == 0 then forall i | 1 <= i < LEVELS :: histogram[i] == 0
    else && max < LEVELS && 0 < histogram[max]
         && (forall i | 1 <= i < LEVELS :: histogram[i] <= histogram[max])
         && (forall i | 1 <= i < max :: histogram[i] < histogram[max])
  }

  /** One pass over the histogram finds both marks and clears it behind itself. */
  method ScanLevels(levels: array<nat>) returns (zero: nat, max: nat)
    requires levels.Length == LEVELS
    modifies levels
    ensures IsEmptyPrefix(old(levels[..]), zero) && IsFirstFullest(old(levels[..]), max)
    ensures forall i | 0 <= i < LEVELS :: levels[i] == 0
  {
    zero, max := 0, 0;
    ghost var before := levels[..];
    for i := 0 to LEVELS
      invariant zero <= i && forall k | 0 <= k < zero :: before[k] == 0
      invariant zero < i ==> before[zero] != 0
      invariant max <= i && (max != 0 ==> max < i) && max < LEVELS
      invariant forall k | i <= k < LEVELS :: levels[k] == before[k]
      invariant forall k | 0 <= k < i && k != max :: levels[k] == 0
      invariant max == 0 && 0 < i ==> levels[0] == 0
      invariant max != 0 ==> levels[max] == before[max] > 0
      invariant forall k | 1 <= k < i :: before[k] <= if max == 0 then 0 else before[max]
      invariant forall k | 1 <= k < max :: before[k] < before[max]
    {
      if levels[i] == 0 && zero == i {
        zero := zero + 1;
      }
      if levels[i] > levels[max] {
        levels[max] := 0;
        max := i;
      } else {
        levels[i] := 0;
      }
    }
    levels[max] := 0;
  }

  lemma {:induction false} BucketCountIsPositive(levels: seq<Level>, i: nat)
    requires Recorded(levels) && i < |levels|
    ensures 0 < BucketCount(levels, Bucket(levels[i].having, levels[i].rate))
  {
    if i < |levels| - 1 {
      BucketCountIsPositive(levels[..|levels| - 1], i);
    }
  }

  // Recording one more level bumps its bucket and no other.
  lemma DescribesStep(histogram: seq<nat>, levels: seq<Level>, level: Level)
    requires Describes(histogram, levels) && 0 < level.rate
    ensures Describes(Bumped(histogram, level), levels + [level])
  {
    assert (levels + [level])[..|levels|] == levels;
  }

  // ---------------------------------------------------------------------------------------
  // How much to skip
  // ---------------------------------------------------------------------------------------

  // The bucket to fall back to; 0 for no skip at all (less than 600 ms most of the time).
  function ShrinkMark(zero: nat, max: nat): nat {
    var safe := zero * 2 / 3;
    if max < 6 then 0 else if max > safe * DROP_FRACTION then safe * DROP_FRACTION else max
  }

  function SkipSize(capacity: nat, mark: nat): nat {
    var x: nat := capacity * mark / (LEVELS * DROP_FRACTION);
    x + x % 2
  }

  // The skip is taken only when it is less than a third of what is buffered.
  function SkipTaken(capacity: nat, occupied: nat, mark: nat): (skip: nat)
    ensures skip % 2 == 0 && (0 < skip ==> 3 * skip < occupied)
  {
    var skip := SkipSize(capacity, mark);
    if occupied > skip * 3 && skip > 0 then skip else 0
  }

  // No level was ever recorded below an empty prefix of the histogram.
  lemma LevelAbovePrefix(histogram: seq<nat>, levels: seq<Level>, zero: nat, i: nat)
    requires Describes(histogram, levels) && IsEmptyPrefix(histogram, zero) && i < |levels|
    ensures zero * levels[i].rate <= levels[i].having * 10
  {
    var level := levels[i];
    BucketCountIsPositive(levels, i);
    DivBelow(zero, level.having * 10, level.rate);
  }

  /** A skip is at most two thirds of any recorded level plus one sample, scaled by the rates
      when the buffer was resized in between. */
  lemma SkipWithinLevels(histogram: seq<nat>, levels: seq<Level>, zero: nat, max: nat, rate: nat, i: nat)
    requires Describes(histogram, levels) && IsEmptyPrefix(histogram, zero) && 0 < rate && i < |levels|
    requires 0 < SkipSize(3 * rate, ShrinkMark(zero, max))
    ensures 3 * (SkipSize(3 * rate, ShrinkMark(zero, max)) - 1) * levels[i].rate <= 2 * levels[i].having * rate
    ensures levels[i].rate == rate ==> 3 * (SkipSize(3 * rate, ShrinkMark(zero, max)) - 1) <= 2 * levels[i].having
  {
    var mark, level := ShrinkMark(zero, max), levels[i];
    var x: nat := 3 * rate * mark / (LEVELS * DROP_FRACTION);
    SafeSkip(x, mark, zero, rate);
    LevelAbovePrefix(histogram, levels, zero, i);
    ScaleChain(x, rate, zero, level.rate, level.having);
    MulMonotone(3 * (SkipSize(3 * rate, mark) - 1), 3 * x, level.rate);
  }

  lemma SafeSkip(x: nat, mark: nat, zero: nat, rate: nat)
    requires x == 3 * rate * mark / (LEVELS * DROP_FRACTION) && 3 * mark <= 8 * zero
    ensures 15 * x <= rate * zero
  {
    var full, bound := rate * mark, rate * zero;
    assert 120 * x <= 3 * full;
    MulMonotone(3 * mark, 8 * zero, rate);
    assert 3 * mark * rate == 3 * full && 8 * zero * rate == 8 * bound;
  }

  lemma ScaleChain(x: nat, rate: nat, zero: nat, levelRate: nat, having: nat)
    requires 15 * x <= rate * zero && zero * levelRate <= having * 10 && 0 < levelRate && 0 < rate
    ensures 3 * x * levelRate <= 2 * having * rate
    ensures levelRate == rate ==> 3 * x <= 2 * having
  {
    MulMonotone(15 * x, rate * zero, levelRate);
    assert rate * zero * levelRate == zero * levelRate * rate;
    MulMonotone(zero * levelRate, having * 10, rate);
    if levelRate == rate {
      DivBelow(3 * x, 2 * having * rate, rate);
      DivUnique(2 * having * rate, rate, 2 * having, 0);
    }
  }

  // The histogram after one more level.
  ghost function Bumped(histogram: seq<nat>, level: Level): seq<nat>
    requires |histogram| == LEVELS && 0 < level.rate
  {
    var b := Bucket(level.having, level.rate);
    histogram[b := histogram[b] + 1]
  }

  // The skip that this histogram calls for.
  ghost predicate SkipDecided(histogram: seq<nat>, capacity: nat, occupied: nat, skipped: nat)
    requires |histogram| == LEVELS
  {
    exists zero, max :: IsEmptyPrefix(histogram, zero) && IsFirstFullest(histogram, max)
      && skipped == SkipTaken(capacity, occupied, ShrinkMark(zero, max))
  }

  /** Nothing is skipped when less than 600 ms was buffered most of the time: when some level from 100 to
      600 ms was seen at least as often as each level above, or no level from 100 ms on at all. */
  lemma NoSkipWhenLow(histogram: seq<nat>, levels: seq<Level>, capacity: nat, occupied: nat, skipped: nat)
    requires Describes(histogram, levels) && SkipDecided(histogram, capacity, occupied, skipped)
    requires || (exists low :: 1 <= low <= 5 && forall b | 6 <= b <= 29 ::
                   BucketCount(levels, b) <= BucketCount(levels, low))
             || forall b | 1 <= b <= 29 :: BucketCount(levels, b) == 0
    ensures skipped == 0
  {
    var zero, max :| IsEmptyPrefix(histogram, zero) && IsFirstFullest(histogram, max)
      && skipped == SkipTaken(capacity, occupied, ShrinkMark(zero, max));
    LowIsFullest(histogram, levels, max);
    NoMarkNoSkip(capacity, occupied);
  }

  lemma NoMarkNoSkip(capacity: nat, occupied: nat)
    ensures SkipTaken(capacity, occupied, 0) == 0
  {
  }

  lemma LowIsFullest(histogram: seq<nat>, levels: seq<Level>, max: nat)
    requires Describes(histogram, levels) && IsFirstFullest(histogram, max)
    requires || (exists low :: 1 <= low <= 5 && forall b | 6 <= b <= 29 ::
                   BucketCount(levels, b) <= BucketCount(levels, low))
             || forall b | 1 <= b <= 29 :: BucketCount(levels, b) == 0
    ensures max < 6
  {
    FullestAbove(histogram, levels, max);
  }

  lemma FullestAbove(histogram: seq<nat>, levels: seq<Level>, max: nat)
    requires Describes(histogram, levels) && IsFirstFullest(histogram, max)
    ensures 6 <= max ==> max <= 29 && 0 < BucketCount(levels, max)
    ensures 6 <= max ==> forall low | 1 <= low <= 5 :: BucketCount(levels, low) < BucketCount(levels, max)
  {
    if 6 <= max {
      assert histogram[max] == BucketCount(levels, max);
      forall low | 1 <= low <= 5
        ensures BucketCount(levels, low) < BucketCount(levels, max)
      {
        assert histogram[low] == BucketCount(levels, low);
      }
    }
  }

  /** Otherwise the skip is a quarter of a mark, rounded up to an even number of samples, and is taken if it
      is less than a third of what is buffered. The mark is the level `first` seen most, or four times two
      thirds of the lowest one seen if that is less, both in tenths of a second. */
  lemma SkipExactly(histogram: seq<nat>, levels: seq<Level>, lowest: nat, first: nat, capacity: nat, occupied: nat,
                    skipped: nat)
    requires Describes(histogram, levels) && lowest <= first && 6 <= first <= 29
    requires 0 < BucketCount(levels, lowest) && forall b | 0 <= b < lowest :: BucketCount(levels, b) == 0
    requires 0 < BucketCount(levels, first)
    requires forall b | 1 <= b <= 29 :: BucketCount(levels, b) <= BucketCount(levels, first)
    requires forall b | 1 <= b < first :: BucketCount(levels, b) < BucketCount(levels, first)
    ensures SkipDecided(histogram, capacity, occupied, skipped) <==>
            var mark := if first <= 2 * lowest / 3 * 4 then first else 2 * lowest / 3 * 4;
            var x: nat := capacity * mark / 120;
            var even := if x % 2 == 0 then x else x + 1;
            skipped == if 0 < even && 3 * even < occupied then even else 0
  {
    MarksOfCounts(histogram, levels, lowest, first);
    SkipOfMarks(lowest, first, capacity, occupied);
    forall zero, max | IsEmptyPrefix(histogram, zero) && IsFirstFullest(histogram, max)
      ensures zero == lowest && max == first
    {
      MarksUnique(histogram, lowest, first, zero, max);
    }
  }

  lemma MarksOfCounts(histogram: seq<nat>, levels: seq<Level>, lowest: nat, first: nat)
    requires Describes(histogram, levels) && lowest <= first && 6 <= first <= 29
    requires 0 < BucketCount(levels, lowest) && forall b | 0 <= b < lowest :: BucketCount(levels, b) == 0
    requires 0 < BucketCount(levels, first)
    requires forall b | 1 <= b <= 29 :: BucketCount(levels, b) <= BucketCount(levels, first)
    requires forall b | 1 <= b < first :: BucketCount(levels, b) < BucketCount(levels, first)
    ensures IsEmptyPrefix(histogram, lowest) && IsFirstFullest(histogram, first)
  {
    assert histogram[first] == BucketCount(levels, first) && histogram[lowest] == BucketCount(levels, lowest);
  }

  lemma MarksUnique(histogram: seq<nat>, lowest: nat, first: nat, zero: nat, max: nat)
    requires |histogram| == LEVELS && lowest < LEVELS && 6 <= first
    requires IsEmptyPrefix(histogram, lowest) && IsFirstFullest(histogram, first)
    requires IsEmptyPrefix(histogram, zero) && IsFirstFullest(histogram, max)
    ensures zero == lowest && max == first
  {
    assert histogram[lowest] != 0 && histogram[first] > 0;
  }

  lemma SkipOfMarks(zero: nat, max: nat, capacity: nat, occupied: nat)
    requires 6 <= max
    ensures var mark := if max <= 2 * zero / 3 * 4 then max else 2 * zero / 3 * 4;
            var x: nat := capacity * mark / 120;
            var even := if x % 2 == 0 then x else x + 1;
            SkipTaken(capacity, occupied, ShrinkMark(zero, max))
            == if 0 < even && 3 * even < occupied then even else 0
  {
  }

  // Every skip that histograms call for at this output format is a number of whole frames. The level
  // of the moment is always in the histogram.
  ghost predicate SkipsAligned(rate: nat, channels: nat)
    requires 0 < rate && 0 < channels
  {
    MulMonotone(1, rate, channels);
    var capacity := 3 * (rate * channels);
    forall histogram: seq<nat>, occupied: nat, skipped: nat
      | |histogram| == LEVELS && occupied <= capacity && 0 < histogram[Bucket(occupied, rate * channels)]
        && SkipDecided(histogram, capacity, occupied, skipped) ::
      skipped % channels == 0
  }

  predicate KeepsFrames(rate: nat, channels: nat) {
    channels <= 2 || (rate % 40 == 0 && rate * channels % 80 == 0)
  }

  /** Skips keep whole frames exactly for mono, for stereo, and at rates whose fortieth is a whole
      number, an even one for an odd number of channels. */
  lemma SkipsStayAlignedIff(rate: nat, channels: nat)
    requires 0 < rate && 0 < channels
    ensures SkipsAligned(rate, channels) <==> KeepsFrames(rate, channels)
  {
    if KeepsFrames(rate, channels) {
      forall histogram: seq<nat>, occupied: nat, skipped: nat
        | |histogram| == LEVELS && SkipDecided(histogram, 3 * (rate * channels), occupied, skipped)
        ensures skipped % channels == 0
      {
        DecidedAligned(histogram, rate, channels, occupied, skipped);
      }
    } else {
      var mark := SplittingMark(rate);
      SplittingMarkSplits(rate, channels);
      var capacity := 3 * (rate * channels);
      MulMonotone(1, rate, channels);
      FullLevel(rate * channels);
      OnlySkip(mark, capacity, capacity, SkipTaken(capacity, capacity, mark));
      assert 0 < TwoLevels(mark)[Bucket(capacity, rate * channels)];
    }
  }

  /** Only mono and stereo are safe at every rate: 44.1 kHz splits the frames of all other formats. */
  lemma AlignedAtEveryRateIff(channels: nat)
    requires 0 < channels
    ensures (forall rate: nat | 0 < rate :: SkipsAligned(rate, channels)) <==> channels <= 2
    ensures SkipsAligned(44100, channels) <==> channels <= 2
    ensures SkipsAligned(48000, channels)
  {
    SkipsStayAlignedIff(44100, channels);
    SkipsStayAlignedIff(48000, channels);
    DivUnique(48000 * channels, 80, 600 * channels, 0);
    if channels <= 2 {
      AlwaysAligned(channels);
    }
  }

  lemma AlwaysAligned(channels: nat)
    requires 1 <= channels <= 2
    ensures forall rate: nat | 0 < rate :: SkipsAligned(rate, channels)
  {
    forall rate: nat | 0 < rate
      ensures SkipsAligned(rate, channels)
    {
      SkipsStayAlignedIff(rate, channels);
    }
  }

  lemma DecidedAligned(histogram: seq<nat>, rate: nat, channels: nat, occupied: nat, skipped: nat)
    requires 0 < channels && KeepsFrames(rate, channels) && |histogram| == LEVELS
    requires SkipDecided(histogram, 3 * (rate * channels), occupied, skipped)
    ensures skipped % channels == 0
  {
    var mark := DecidedMark(histogram, 3 * (rate * channels), occupied, skipped);
    if 2 < channels {
      EvenFrames(rate, channels, mark);
      TakenAligned(3 * (rate * channels), occupied, mark, channels);
    } else {
      EvenIsStereo(skipped, channels);
    }
  }

  lemma TakenAligned(capacity: nat, occupied: nat, mark: nat, channels: nat)
    requires 0 < channels && SkipSize(capacity, mark) % channels == 0
    ensures SkipTaken(capacity, occupied, mark) % channels == 0
  {
    DivUnique(0, channels, 0, 0);
  }

  lemma DecidedMark(histogram: seq<nat>, capacity: nat, occupied: nat, skipped: nat) returns (mark: nat)
    requires |histogram| == LEVELS && SkipDecided(histogram, capacity, occupied, skipped)
    ensures skipped == SkipTaken(capacity, occupied, mark)
  {
    var zero, max :| IsEmptyPrefix(histogram, zero) && IsFirstFullest(histogram, max)
      && skipped == SkipTaken(capacity, occupied, ShrinkMark(zero, max));
    mark := ShrinkMark(zero, max);
  }

  lemma EvenIsStereo(skipped: nat, channels: nat)
    requires skipped % 2 == 0 && 1 <= channels <= 2
    ensures skipped % channels == 0
  {
  }

  // A skip for `mark`, counted in frames, if `mark` fortieths of a second are a + b / 40 frames.
  lemma SkipInFrames(rate: nat, channels: nat, mark: nat, a: nat, b: nat)
    requires rate * mark == 40 * a + b
    ensures 0 <= a * channels && 0 <= b * channels
    ensures var x := a * channels + b * channels / 40;
            SkipSize(3 * (rate * channels), mark) == x + x % 2
  {
    MulMonotone(0, a, channels);
    MulMonotone(0, b, channels);
    InFortieths(rate, channels, mark, a, b);
    FramesAndRest(a * channels, b * channels);
  }

  lemma InFortieths(rate: nat, channels: nat, mark: nat, a: nat, b: nat)
    requires rate * mark == 40 * a + b
    ensures rate * channels * mark == 40 * (a * channels) + b * channels
    ensures 3 * (rate * channels) * mark == 3 * (40 * (a * channels) + b * channels)
  {
    assert rate * channels * mark == rate * mark * channels;
    Distribute(40 * a, b, channels);
    assert 3 * (rate * channels) * mark == 3 * (rate * channels * mark);
  }

  lemma FramesAndRest(whole: nat, rest: nat)
    ensures (3 * (40 * whole + rest)) / 120 == whole + rest / 40
  {
  }

  // A fortieth of a second is a whole number of frames with an even number of samples.
  lemma EvenFrames(rate: nat, channels: nat, mark: nat)
    requires 0 < channels && rate % 40 == 0 && rate * channels % 80 == 0
    ensures SkipSize(3 * (rate * channels), mark) % channels == 0
  {
    var a := rate / 40;
    InFortieths(rate, channels, 1, a, 0);
    EvenTimes(a * channels, mark);
    assert a * mark * channels == a * channels * mark;
    assert rate * mark == 40 * (a * mark);
    MulMonotone(0, a, mark);
    SkipInFrames(rate, channels, mark, a * mark, 0);
    DivUnique(a * mark * channels, channels, a * mark, 0);
  }

  lemma EvenTimes(p: int, mark: nat)
    requires 40 * p % 80 == 0
    ensures p * mark % 2 == 0
  {
    var k := p / 2;
    assert p == 2 * k;
    assert p * mark == 2 * (k * mark);
  }

  // A mark whose skip is not a number of whole frames, unless the format keeps frames.
  function SplittingMark(rate: nat): (mark: nat)
    ensures 6 <= mark <= 20
  {
    if rate % 40 == 0 then 7 else MiddleMark(rate % 40)
  }

  lemma SplittingMarkSplits(rate: nat, channels: nat)
    requires 0 < rate && 0 < channels && !KeepsFrames(rate, channels)
    ensures var mark := SplittingMark(rate);
            HasLevel(rate, mark) && SkipTaken(3 * (rate * channels), 3 * (rate * channels), mark) % channels != 0
  {
    var mark := SplittingMark(rate);
    if rate % 40 == 0 {
      OddFrames(rate, channels);
    } else {
      SplitInMiddle(rate, channels);
    }
    if rate < 10 {
      MiddleHasLevel(rate);
    } else {
      DivNonneg(mark * rate + 9, 10);
      Distribute(mark, 1, rate);
    }
  }

  // The whole frames with which a level reaches the bucket of `mark`, and whether it is in that bucket.
  function LevelFrames(rate: nat, mark: nat): nat {
    MulMonotone(0, mark, rate);
    (mark * rate + 9) / 10
  }

  predicate HasLevel(rate: nat, mark: nat) {
    mark * rate <= 10 * LevelFrames(rate, mark) < (mark + 1) * rate
  }

  lemma MiddleHasLevel(rate: nat)
    requires 0 < rate < 10
    ensures HasLevel(rate, MiddleMark(rate % 40))
  {
    assert rate % 40 == rate;
    assert rate == 1 || rate == 2 || rate == 3 || rate == 4 || rate == 5
           || rate == 6 || rate == 7 || rate == 8 || rate == 9;
  }

  lemma LevelBucket(rate: nat, channels: nat, mark: nat)
    requires 0 < rate && 0 < channels && mark < LEVELS - 1 && HasLevel(rate, mark)
    ensures 0 < rate * channels && 0 <= LevelFrames(rate, mark) * channels <= 3 * (rate * channels)
    ensures Bucket(LevelFrames(rate, mark) * channels, rate * channels) == mark
  {
    LevelInRing(LevelFrames(rate, mark), rate, channels, mark);
    LevelPerSecond(LevelFrames(rate, mark), rate, channels, mark);
  }

  lemma LevelPerSecond(frames: nat, rate: nat, channels: nat, mark: nat)
    requires 0 < rate && 0 < channels && mark * rate <= 10 * frames < (mark + 1) * rate
    ensures 0 < rate * channels && frames * channels * 10 / (rate * channels) == mark
  {
    DivScale(10 * frames, rate, channels);
    Distribute(mark, 1, rate);
    DivUnique(10 * frames, rate, mark, 10 * frames - mark * rate);
    assert frames * channels * 10 == 10 * frames * channels;
  }

  lemma LevelInRing(frames: nat, rate: nat, channels: nat, mark: nat)
    requires mark < LEVELS && 10 * frames < (mark + 1) * rate
    ensures 0 <= frames * channels <= 3 * (rate * channels)
  {
    MulMonotone(0, frames, channels);
    MulMonotone(mark + 1, 30, rate);
    MulMonotone(frames, 3 * rate, channels);
    assert 3 * rate * channels == 3 * (rate * channels);
  }

  lemma FullLevel(rateChannels: nat)
    requires 0 < rateChannels
    ensures Bucket(3 * rateChannels, rateChannels) == LEVELS - 1
  {
    DivUnique(3 * rateChannels * 10, rateChannels, 30, 0);
  }

  // At other rates some mark falls close to the middle between two frames.
  function MiddleMark(s: nat): (mark: nat)
    ensures 6 <= mark <= 20
  {
    if s % 2 == 1 then 20
    else if s % 4 == 2 then 10
    else if s % 8 == 4 then 15
    else if s == 8 || s == 32 then 7
    else 6
  }

  lemma MiddleMarkIsClose(s: nat)
    requires 0 < s < 40
    ensures 16 <= s * MiddleMark(s) % 40 <= 24
  {
    if s % 2 == 1 {
      DivUnique(s * 20, 40, s / 2, 20);
    } else if s % 4 == 2 {
      DivUnique(s * 10, 40, s / 4, 20);
    } else if s % 8 == 4 {
      DivUnique(s * 15, 40, 3 * (s / 8) + 1, 20);
    } else {
      assert s == 8 || s == 16 || s == 24 || s == 32;
    }
  }

  lemma SplitInMiddle(rate: nat, channels: nat)
    requires 2 < channels && rate % 40 != 0
    ensures var mark := MiddleMark(rate % 40);
            SkipTaken(3 * (rate * channels), 3 * (rate * channels), mark) % channels != 0
  {
    var mark := MiddleMark(rate % 40);
    var a, b := rate / 40 * mark + rate % 40 * mark / 40, rate % 40 * mark % 40;
    MiddleMarkIsClose(rate % 40);
    InMarks(rate, mark);
    SkipInFrames(rate, channels, mark, a, b);
    MiddleIsTaken(rate, channels, mark, a, b);
    SplitFrame(channels, a, b);
  }

  lemma InMarks(rate: nat, mark: nat)
    ensures 0 <= rate / 40 * mark && 0 <= rate % 40 * mark
    ensures rate * mark == 40 * (rate / 40 * mark + rate % 40 * mark / 40) + rate % 40 * mark % 40
  {
    var q, s := rate / 40, rate % 40;
    MulMonotone(0, q, mark);
    MulMonotone(0, s, mark);
    Distribute(40 * q, s, mark);
    DivNonneg(s * mark, 40);
    assert 40 * q * mark == 40 * (q * mark);
  }

  lemma SplitFrame(channels: nat, a: nat, b: nat)
    requires 2 < channels && 16 <= b <= 24 && 0 <= a * channels && 0 <= b * channels
    ensures var x := a * channels + b * channels / 40; (x + x % 2) % channels != 0
  {
    var x := a * channels + b * channels / 40;
    MulMonotone(16, b, channels);
    MulMonotone(b, 24, channels);
    DivUnique(x + x % 2, channels, a, b * channels / 40 + x % 2);
  }

  lemma MiddleIsTaken(rate: nat, channels: nat, mark: nat, a: nat, b: nat)
    requires 2 < channels && mark <= 20 && rate * mark == 40 * a + b && 0 < rate
    ensures 2 * (a * channels + b * channels / 40) <= rate * channels && 2 < rate * channels
  {
    InFortieths(rate, channels, mark, a, b);
    MulMonotone(1, rate, channels);
    MulMonotone(mark, 20, rate * channels);
  }

  // A fortieth of a second is a whole number of frames, but with an odd number of samples.
  lemma OddFrames(rate: nat, channels: nat)
    requires 2 < channels && rate % 40 == 0 && rate * channels % 80 != 0
    ensures SkipTaken(3 * (rate * channels), 3 * (rate * channels), 7) % channels != 0
  {
    var a := rate / 40;
    InFortieths(rate, channels, 1, a, 0);
    MulMonotone(0, a, channels);
    SevenOdd(a * channels);
    SkipInFrames(rate, channels, 7, 7 * a, 0);
    assert 7 * a * channels == 7 * (a * channels);
    DivUnique(7 * a * channels + 1, channels, 7 * a, 1);
  }

  lemma SevenOdd(p: nat)
    requires 40 * p % 80 != 0
    ensures 7 * p % 2 == 1
  {
  }

  // The histogram of a level seen twice and a full ring.
  ghost function TwoLevels(mark: nat): seq<nat> {
    seq(LEVELS, i => if i == mark then 2 else if i == LEVELS - 1 then 1 else 0)
  }

  lemma OnlySkip(mark: nat, capacity: nat, occupied: nat, skipped: nat)
    requires 6 <= mark < LEVELS - 1
    ensures SkipDecided(TwoLevels(mark), capacity, occupied, skipped)
            <==> skipped == SkipTaken(capacity, occupied, mark)
  {
    var histogram := TwoLevels(mark);
    assert ShrinkMark(mark, mark) == mark;
    assert histogram[mark] == 2 && IsEmptyPrefix(histogram, mark) && IsFirstFullest(histogram, mark);
    forall zero, max | IsEmptyPrefix(histogram, zero) && IsFirstFullest(histogram, max)
      ensures zero == mark && max == mark
    {
      assert histogram[mark] != 0;
    }
  }

  lemma DecidedWithinLevels(histogram: seq<nat>, levels: seq<Level>, rate: nat, occupied: nat, skipped: nat)
    requires Describes(histogram, levels) && 0 < rate && 0 < skipped
    requires SkipDecided(histogram, 3 * rate, occupied, skipped)
    ensures forall level | level in levels :: 3 * (skipped - 1) * level.rate <= 2 * level.having * rate
    ensures forall level | level in levels && level.rate == rate :: 3 * (skipped - 1) <= 2 * level.having
  {
    var zero, max :| IsEmptyPrefix(histogram, zero) && IsFirstFullest(histogram, max)
      && skipped == SkipTaken(3 * rate, occupied, ShrinkMark(zero, max));
    forall level | level in levels
      ensures 3 * (skipped - 1) * level.rate <= 2 * level.having * rate
      ensures level.rate == rate ==> 3 * (skipped - 1) <= 2 * level.having
    {
      var i :| 0 <= i < |levels| && levels[i] == level;
      SkipWithinLevels(histogram, levels, zero, max, rate, i);
    }
  }

  // ---------------------------------------------------------------------------------------
  // The buffer
  // ---------------------------------------------------------------------------------------

  // The generation after one more discontinuity.
  function Next(generation: nat): (next: nat)
    ensures generation < 0xFFFF_FFFF_FFFF_FFFF ==> next == generation + 1
    ensures generation == 0xFFFF_FFFF_FFFF_FFFF ==> next == 0
  {
    (generation + 1) % (USIZE_MAX + 1)
  }

  class AudioBuffer<S(0)> {
    var ring: PcmRing<S>
    var rateChannels: nat          // samples per second
    const levels: array<nat>       // the watermark histogram
    var generation: nat            // bumped, modulo 2^64, whenever samples are dropped
    var lastPass: int              // time of the last pass over the histogram, 0 for never
    ghost var recorded: seq<Level> // the levels recorded since that pass

    ghost predicate Valid()
      reads this, ring, ring.data, levels
    {
      && ring.Valid() && (levels as object) != (ring.data as object)
      && 0 < rateChannels && ring.data.Length == 3 * rateChannels
      && Describes(levels[..], recorded)
      && generation <= USIZE_MAX
    }

    // 48 kHz stereo.
    constructor ()
      ensures Valid() && fresh(ring) && fresh(ring.data) && fresh(levels)
      ensures ring.Contents() == [] && rateChannels == 96000 && recorded == [] && generation == 0 && lastPass == 0
    {
      ring := new PcmRing<S>(48000 * 2 * AUDIO_BUFFER_MS / 1000);
      rateChannels := 48000 * 2;
      levels := new nat[LEVELS](i => 0);
      generation, lastPass, recorded := 0, 0, [];
    }

    method Resize(sampleRate: nat, channels: nat)
      requires Valid() && 0 < sampleRate * channels
      modifies this`ring, this`rateChannels
      ensures Valid() && rateChannels == sampleRate * channels && ring.data.Length == 3 * (sampleRate * channels)
      ensures if sampleRate * channels == old(rateChannels) then ring == old(ring)
              else fresh(ring) && fresh(ring.data) && ring.Contents() == []
    {
      var capacity := sampleRate * channels * AUDIO_BUFFER_MS / 1000;
      assert capacity == 3 * (sampleRate * channels);
      if capacity != ring.data.Length {
        ring := new PcmRing<S>(capacity);
        rateChannels := sampleRate * channels;
      }
    }

    method SignalDiscontinuity() returns (signaled: nat)
      modifies this`generation
      ensures generation == signaled == Next(old(generation))
    {
      generation := (generation + 1) % (USIZE_MAX + 1);
      signaled := generation;
    }

    /** The ring keeps the newest samples; the generation moves exactly when some are dropped. */
    method AppendPcm2(buffer: seq<S>) returns (occupied: nat)
      requires Valid()
      modifies this`generation, ring, ring.data
      ensures Valid() && ring.Contents() == LastN(old(ring.Contents()) + buffer, ring.data.Length)
      ensures occupied == |ring.Contents()|
      ensures generation == if |old(ring.Contents())| + |buffer| > occupied
                            then Next(old(generation)) else old(generation)
    {
      var capacity := ring.data.Length;
      var having := ring.len + |buffer|;
      ring.PushSliceOverwrite(buffer);
      if having > capacity {
        var signaled := SignalDiscontinuity();
      }
      occupied := ring.len;
    }

    method RecordLevel(having: nat)
      requires Valid()
      modifies this`recorded, levels
      ensures Valid() && recorded == old(recorded) + [Level(having, rateChannels)]
      ensures levels[..] == Bumped(old(levels[..]), Level(having, rateChannels))
    {
      var i: nat := having * 10 / rateChannels;
      if i > LEVELS - 1 {
        i := LEVELS - 1;
      }
      DescribesStep(levels[..], recorded, Level(having, rateChannels));
      ghost var before := levels[..];
      levels[i] := levels[i] + 1;
      assert levels[..] == before[i := before[i] + 1];
      recorded := recorded + [Level(having, rateChannels)];
    }

    method SkipAhead(skip: nat)
      requires Valid() && 0 < skip <= ring.len
      modifies this`generation, ring
      ensures Valid() && ring.Contents() == old(ring.Contents())[skip..]
      ensures generation == Next(old(generation))
    {
      ring.Skip(skip);
      var signaled := SignalDiscontinuity();
    }

    /** Record the level, and once every 12 seconds decide from the histogram how much to skip. */
    method TryShrink(having: nat, now: int) returns (skipped: nat)
      requires Valid()
      modifies this`lastPass, this`recorded, this`generation, ring, levels
      ensures Valid() && skipped % 2 == 0 && 3 * skipped <= |old(ring.Contents())|
      ensures ring.Contents() == old(ring.Contents())[skipped..]
      ensures generation == if 0 < skipped then Next(old(generation)) else old(generation)
      ensures var due := old(lastPass) != 0 && now >= old(lastPass) + 12000;
              var level := Level(having, rateChannels);
              && lastPass == (if old(lastPass) == 0 || due then now else old(lastPass))
              && recorded == (if due then [] else old(recorded) + [level])
              && if due then
                   SkipDecided(Bumped(old(levels[..]), level), 3 * rateChannels, |old(ring.Contents())|, skipped)
                 else skipped == 0
    {
      RecordLevel(having);
      if lastPass == 0 {
        lastPass := now;
        return 0;
      } else if now < lastPass + SHRINK_INTERVAL_MS {
        return 0;
      }
      lastPass := now;
      var zero, max := ScanLevels(levels);
      recorded := [];
      skipped := SkipTaken(ring.data.Length, ring.len, ShrinkMark(zero, max));
      if 0 < skipped {
        SkipAhead(skipped);
      }
    }

    /** Appending and then shrinking only drops the oldest samples; what it skips stays within two
        thirds of every level recorded at this rate, plus one sample. */
    method AppendPcm(buffer: seq<S>, now: int) returns (skipped: nat)
      requires Valid()
      modifies this`lastPass, this`recorded, this`generation, ring, ring.data, levels
      ensures Valid() && 3 * skipped <= |LastN(old(ring.Contents()) + buffer, ring.data.Length)| && skipped % 2 == 0
      ensures ring.Contents() == LastN(old(ring.Contents()) + buffer, ring.data.Length)[skipped..]
      ensures var due := old(lastPass) != 0 && now >= old(lastPass) + 12000;
              var having := |LastN(old(ring.Contents()) + buffer, ring.data.Length)|;
              var level := Level(having, rateChannels);
              && lastPass == (if old(lastPass) == 0 || due then now else old(lastPass))
              && recorded == (if due then [] else old(recorded) + [level])
              && if due then SkipDecided(Bumped(old(levels[..]), level), 3 * rateChannels, having, skipped)
                 else skipped == 0
      ensures var appended := if |old(ring.Contents())| + |buffer| > ring.data.Length then Next(old(generation))
                              else old(generation);
              generation == if 0 < skipped then Next(appended) else appended
      ensures forall level | level in old(recorded) && level.rate == rateChannels && 0 < skipped ::
                3 * (skipped - 1) <= 2 * level.having
      ensures forall rate: nat, channels: nat
                | 0 < channels && KeepsFrames(rate, channels) && rateChannels == rate * channels
                  && |buffer| % channels == 0 && |old(ring.Contents())| % channels == 0 ::
                |ring.Contents()| % channels == 0
    {
      ghost var contents := ring.Contents();
      var having := AppendPcm2(buffer);
      ghost var level := Level(having, rateChannels);
      DescribesStep(levels[..], recorded, level);
      ghost var histogram, occupied := Bumped(levels[..], level), |ring.Contents()|;
      skipped := TryShrink(having, now);
      if 0 < skipped {
        DecidedWithinLevels(histogram, old(recorded) + [level], rateChannels, occupied, skipped);
      }
      forall rate: nat, channels: nat
        | 0 < channels && KeepsFrames(rate, channels) && rateChannels == rate * channels
          && |buffer| % channels == 0 && |contents| % channels == 0
        ensures |ring.Contents()| % channels == 0
      {
        if 0 < skipped {
          DecidedAligned(histogram, rate, channels, occupied, skipped);
        }
        DropsStayAligned(contents, buffer, rate, channels, skipped);
      }
    }
  }

  // ---------------------------------------------------------------------------------------
  // Whole runs
  // ---------------------------------------------------------------------------------------

  /** A run of whole frames leaves whole frames, at the formats that allow it ... */
  method PlayFrames<S(0)>(rate: nat, channels: nat, buffers: seq<seq<S>>, times: seq<int>)
    returns (player: AudioBuffer<S>)
    requires 0 < rate && 0 < channels && KeepsFrames(rate, channels) && |times| == |buffers|
    requires forall buffer | buffer in buffers :: |buffer| % channels == 0
    ensures player.Valid() && player.rateChannels == rate * channels && |player.ring.Contents()| % channels == 0
  {
    player := NewPlayer(rate, channels);
    DivUnique(0, channels, 0, 0);
    for i := 0 to |buffers|
      invariant player.Valid() && fresh(player) && fresh(player.ring) && fresh(player.ring.data) && fresh(player.levels)
      invariant player.rateChannels == rate * channels && |player.ring.Contents()| % channels == 0
    {
      var skipped := player.AppendPcm(buffers[i], times[i]);
    }
  }

  method NewPlayer<S(0)>(rate: nat, channels: nat) returns (player: AudioBuffer<S>)
    requires 0 < rate && 0 < channels
    ensures player.Valid() && player.rateChannels == rate * channels && player.ring.Contents() == []
    ensures player.lastPass == 0 && player.recorded == []
    ensures fresh(player) && fresh(player.ring) && fresh(player.ring.data) && fresh(player.levels)
  {
    MulMonotone(1, rate, channels);
    player := new AudioBuffer<S>();
    player.Resize(rate, channels);
  }

  /** ... and at any other format three appends of whole frames can leave a split one: up to some
      level, nothing, and after 12 seconds up to the capacity. */
  method SplitFrames<S(0)>(rate: nat, channels: nat, sample: S) returns (player: AudioBuffer<S>)
    requires 0 < rate && 0 < channels && !KeepsFrames(rate, channels)
    ensures player.Valid() && player.rateChannels == rate * channels && |player.ring.Contents()| % channels != 0
  {
    var mark := SplittingMark(rate);
    SplittingMarkSplits(rate, channels);
    LevelBucket(rate, channels, mark);
    var having := LevelFrames(rate, mark) * channels;
    player := HoldLevel(rate, channels, having, sample);
    TwoLevelsSeen(player.levels[..], Level(having, rate * channels), mark);
    var skipped := FillUp(player, mark, sample);
    SplitRemainder(rate, channels, skipped);
  }

  method Silence<S>(sample: S, length: nat) returns (buffer: seq<S>)
    ensures |buffer| == length
  {
    buffer := seq(length, _ => sample);
  }

  method FillUp<S(0)>(player: AudioBuffer<S>, ghost mark: nat, sample: S) returns (skipped: nat)
    requires player.Valid() && player.lastPass == 1 && 6 <= mark < LEVELS - 1
    requires Bumped(player.levels[..], Level(3 * player.rateChannels, player.rateChannels)) == TwoLevels(mark)
    modifies player, player.ring, player.ring.data, player.levels
    ensures player.Valid() && player.rateChannels == old(player.rateChannels)
    ensures skipped == SkipTaken(3 * player.rateChannels, 3 * player.rateChannels, mark)
    ensures |player.ring.Contents()| == 3 * player.rateChannels - skipped
  {
    var capacity := player.ring.data.Length;
    var buffer := Silence(sample, capacity - player.ring.len);
    ghost var filled := LastN(player.ring.Contents() + buffer, capacity);
    assert |filled| == capacity;
    skipped := player.AppendPcm(buffer, 1 + SHRINK_INTERVAL_MS);
    assert SkipDecided(TwoLevels(mark), capacity, capacity, skipped);
    OnlySkip(mark, capacity, capacity, skipped);
    assert player.ring.Contents() == filled[skipped..];
  }

  // A level seen twice, within a moment.
  method HoldLevel<S(0)>(rate: nat, channels: nat, having: nat, sample: S) returns (player: AudioBuffer<S>)
    requires 0 < rate && 0 < channels && having <= 3 * (rate * channels)
    ensures player.Valid() && player.rateChannels == rate * channels && |player.ring.Contents()| == having
    ensures player.lastPass == 1
    ensures player.recorded == [Level(having, rate * channels), Level(having, rate * channels)]
    ensures fresh(player) && fresh(player.ring) && fresh(player.ring.data) && fresh(player.levels)
  {
    player := NewPlayer(rate, channels);
    var buffer := Silence(sample, having);
    var skipped := player.AppendPcm(buffer, 1);
    skipped := player.AppendPcm([], 2);
  }

  lemma TwoLevelsSeen(histogram: seq<nat>, level: Level, mark: nat)
    requires Describes(histogram, [level, level]) && Bucket(level.having, level.rate) == mark < LEVELS - 1
    ensures Bumped(histogram, Level(3 * level.rate, level.rate)) == TwoLevels(mark)
  {
    FullLevel(level.rate);
    forall bucket | 0 <= bucket < LEVELS
      ensures histogram[bucket] == if bucket == mark then 2 else 0
    {
      BucketCountOfTwo(level, bucket);
    }
  }

  lemma BucketCountOfTwo(level: Level, bucket: nat)
    requires 0 < level.rate
    ensures BucketCount([level, level], bucket) == if Bucket(level.having, level.rate) == bucket then 2 else 0
  {
    assert [level, level][..1] == [level];
    assert BucketCount([level], bucket) == if Bucket(level.having, level.rate) == bucket then 1 else 0;
  }

  lemma SplitRemainder(rate: nat, channels: nat, skipped: nat)
    requires 0 < channels && skipped % channels != 0 && skipped <= 3 * (rate * channels)
    ensures (3 * (rate * channels) - skipped) % channels != 0
  {
    var capacity := 3 * (rate * channels);
    assert capacity == 3 * rate * channels;
    DivUnique(capacity, channels, 3 * rate, 0);
    if (capacity - skipped) % channels == 0 {
      ModDifference(capacity, capacity - skipped, channels);
    }
  }

  /** Dropping to capacity keeps frames whole for any channel count, and so does a skip of whole
      frames. */
  lemma DropsStayAligned<S>(contents: seq<S>, buffer: seq<S>, rate: nat, channels: nat, skipped: nat)
    requires 0 < channels && skipped % channels == 0
    requires |contents| % channels == 0 && |buffer| % channels == 0
    requires skipped <= |LastN(contents + buffer, 3 * (rate * channels))|
    ensures |LastN(contents + buffer, 3 * (rate * channels))[skipped..]| % channels == 0
  {
    var capacity := 3 * (rate * channels);
    assert capacity % channels == 0 by {
      assert capacity == 3 * rate * channels;
      DivUnique(capacity, channels, 3 * rate, 0);
    }
    ModSum(|contents|, |buffer|, channels);
    ModDifference(|LastN(contents + buffer, capacity)|, skipped, channels);
  }
}
