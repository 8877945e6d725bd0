/**
 The decode-failure counter of `VideoHandler` in src/client.rs and the threshold at which a
 codec is reported as unsupported.
 */
module VideoDecodeFailures {
  import opened Arithmetic
  import opened Wrappers

  const MAX_DECODE_FAIL_COUNTER: nat := 3

  // How many of the latest results are failures.
  function Streak(results: seq<bool>): (n: nat)
    ensures n <= |results| && forall i | |results| - n <= i < |results| :: !results[i]
    ensures n < |results| ==> results[|results| - n - 1]
  {
    if results == [] || results[|results| - 1] then 0 else Streak(results[..|results| - 1]) + 1
  }

  /** The counter in closed form, from the decode results since the last reset: the current
      streak, plus 2 if it goes back to the first frame. */
  function Counter(results: seq<bool>): nat {
    Streak(results) + if results != [] && Streak(results) == |results| then 2 else 0
  }

  // The first frame after the reset failed, or some three frames in a row did.
  ghost predicate Faulty(results: seq<bool>) {
    || (results != [] && !results[0])
    || exists i :: 0 <= i <= |results| - 3 && !results[i] && !results[i + 1] && !results[i + 2]
  }

  /** The threshold is reached at some point of a run exactly for a faulty run. */
  lemma ThresholdReachedIffFaulty(results: seq<bool>)
    ensures (exists n | 0 <= n <= |results| :: Counter(results[..n]) >= MAX_DECODE_FAIL_COUNTER) <==> Faulty(results)
  {
    if results != [] && !results[0] {
      assert Counter(results[..1]) == 3;
    } else if i: int :| 0 <= i <= |results| - 3 && !results[i] && !results[i + 1] && !results[i + 2] {
      ThreeInARow(results[..i + 3]);
    } else {
      forall n | 0 <= n <= |results|
        ensures Counter(results[..n]) < MAX_DECODE_FAIL_COUNTER
      {
        var prefix := results[..n];
        StreakStands(results, n);
      }
    }
  }

  // A streak of three in a prefix is three failures in a row in the whole run.
  lemma StreakStands(results: seq<bool>, n: nat)
    requires n <= |results|
    ensures Streak(results[..n]) >= 3 ==> Faulty(results)
  {
    var prefix := results[..n];
    if Streak(prefix) >= 3 {
      assert !prefix[n - 1] && !prefix[n - 2] && !prefix[n - 3];
      assert !results[n - 3] && !results[n - 3 + 1] && !results[n - 3 + 2];
    }
  }

  // One more decode result, as the code updates its counter.
  lemma CounterStep(results: seq<bool>, decoded: bool)
    ensures Counter(results + [decoded]) ==
            if decoded then 0 else if results == [] then MAX_DECODE_FAIL_COUNTER else Counter(results) + 1
  {
    assert (results + [decoded])[..|results|] == results;
  }

  lemma ThreeInARow(results: seq<bool>)
    requires |results| >= 3 && !results[|results| - 1] && !results[|results| - 2] && !results[|results| - 3]
    ensures Counter(results) >= 3
  {
  }

  class VideoHandler<F(==)> {
    var format: F           // decoder.format()
    var failCounter: nat    // a usize
    var firstFrame: bool

    ghost var results: seq<bool>   // decode results since the last reset

    ghost predicate Valid()
      reads this
    {
      && failCounter == (if Counter(results) <= USIZE_MAX then Counter(results) else USIZE_MAX)
      && (firstFrame <==> results == [])
    }

    constructor (format: F)
      ensures Valid() && this.format == format && results == []
    {
      this.format := format;
      failCounter, firstFrame, results := 0, true, [];
    }

    method Reset(format: Option<F>)
      modifies this
      ensures Valid() && results == []
      ensures this.format == if format.Some? then format.value else old(this.format)
    {
      if format.Some? {
        this.format := format.value;
      }
      failCounter, firstFrame, results := 0, true, [];
    }

    /** `payload` is the result of decoding the frame, if it carries anything at all. */
    method HandleFrame(format: F, payload: Option<bool>)
      requires Valid()
      modifies this
      ensures Valid() && this.format == format
      ensures results == (if format == old(this.format) then old(results) else []) +
                         (if payload.Some? then [payload.value] else [])
    {
      if format != this.format {
        Reset(Some(format));
      }
      match payload {
        case Some(decoded) =>
          CountResult(decoded);
        case None =>
      }
    }

    // What follows the decoding of a frame.
    method CountResult(decoded: bool)
      requires Valid()
      modifies this`failCounter, this`firstFrame, this`results
      ensures Valid() && results == old(results) + [decoded]
    {
      CounterStep(results, decoded);
      results := results + [decoded];
      if decoded {
        failCounter := 0;
      } else {
        if failCounter < USIZE_MAX {
          if firstFrame && failCounter < MAX_DECODE_FAIL_COUNTER {
            failCounter := MAX_DECODE_FAIL_COUNTER;
          } else {
            failCounter := failCounter + 1;
          }
        }
      }
      firstFrame := false;
    }
  }

  // ---------------------------------------------------------------------------------------
  // Runs of a display thread
  // ---------------------------------------------------------------------------------------

  // A frame with the result of decoding it, if it carries anything, and whether the decoder is valid
  // afterwards; or a reset.
  datatype Event<+F> = Frame(format: F, payload: Option<bool>, decoderValid: bool) | Reset

  // The format of the decoder after a run.
  function FormatAfter<F>(first: F, events: seq<Event<F>>): F {
    if events == [] then first else
    var last := events[|events| - 1];
    if last.Frame? then last.format else FormatAfter(first, events[..|events| - 1])
  }

  // The results since the last reset or change of format.
  function ResultsAfter<F(==)>(first: F, events: seq<Event<F>>): seq<bool> {
    if events == [] then [] else
    var past, last := events[..|events| - 1], events[|events| - 1];
    MoreResults(FormatAfter(first, past), ResultsAfter(first, past), last)
  }

  // ... as one more event changes them.
  function MoreResults<F(==)>(current: F, results: seq<bool>, event: Event<F>): seq<bool> {
    match event
    case Reset => []
    case Frame(format, payload, _) =>
      (if format == current then results else []) + (if payload.Some? then [payload.value] else [])
  }

  lemma OneMoreEvent<F(!new)>(first: F, past: seq<Event<F>>, event: Event<F>)
    ensures FormatAfter(first, past + [event]) == if event.Frame? then event.format else FormatAfter(first, past)
    ensures ResultsAfter(first, past + [event])
            == MoreResults(FormatAfter(first, past), ResultsAfter(first, past), event)
    ensures forall f: F :: InvalidSomewhere(past + [event], f) <==>
              InvalidSomewhere(past, f) || (event.Frame? && event.format == f && !event.decoderValid)
    ensures forall f: F :: ReachedSomewhere(first, past + [event], f) <==>
              ReachedSomewhere(first, past, f) || ReachesNow(first, past + [event], f)
  {
    var events := past + [event];
    assert events[..|past|] == past;
    forall f: F
      ensures InvalidSomewhere(events, f) <==>
              InvalidSomewhere(past, f) || (event.Frame? && event.format == f && !event.decoderValid)
      ensures ReachedSomewhere(first, events, f) <==> ReachedSomewhere(first, past, f) || ReachesNow(first, events, f)
    {
      InvalidStep(past, event, f);
      ReachedStep(first, past, event, f);
    }
  }

  lemma InvalidStep<F>(past: seq<Event<F>>, event: Event<F>, f: F)
    ensures InvalidSomewhere(past + [event], f) <==>
              InvalidSomewhere(past, f) || (event.Frame? && event.format == f && !event.decoderValid)
  {
    var events := past + [event];
    assert events[|past|] == event && forall i | 0 <= i < |past| :: events[i] == past[i];
  }

  lemma ReachedStep<F>(first: F, past: seq<Event<F>>, event: Event<F>, f: F)
    ensures ReachedSomewhere(first, past + [event], f) <==>
            ReachedSomewhere(first, past, f) || ReachesNow(first, past + [event], f)
  {
    var events := past + [event];
    assert events[..|events|] == events;
    assert forall n | 0 <= n <= |past| :: events[..n] == past[..n];
    if n: nat :| ReachedAt(first, past, n, f) {
      assert ReachedAt(first, events, n, f);
    }
    if ReachesNow(first, events, f) {
      assert ReachedAt(first, events, |events|, f);
    }
    if n: nat :| ReachedAt(first, events, n, f) && n <= |past| {
      assert ReachedAt(first, past, n, f);
    }
  }

  // The decoder was not valid after some frame in this format.
  ghost predicate InvalidSomewhere<F>(events: seq<Event<F>>, f: F) {
    exists i :: 0 <= i < |events| && events[i].Frame? && events[i].format == f && !events[i].decoderValid
  }

  // After n events the decoder has this format and its counter is at the threshold.
  ghost predicate ReachedAt<F>(first: F, events: seq<Event<F>>, n: nat, f: F) {
    && n <= |events| && FormatAfter(first, events[..n]) == f
    && Counter(ResultsAfter(first, events[..n])) >= MAX_DECODE_FAIL_COUNTER
  }

  ghost predicate ReachesNow<F>(first: F, events: seq<Event<F>>, f: F) {
    FormatAfter(first, events) == f && Counter(ResultsAfter(first, events)) >= MAX_DECODE_FAIL_COUNTER
  }

  ghost predicate ReachedSomewhere<F>(first: F, events: seq<Event<F>>, f: F) {
    exists n: nat :: ReachedAt(first, events, n, f)
  }

  // After n events the decoder has this format and its frames since the last reset are faulty.
  ghost predicate FaultyAt<F>(first: F, events: seq<Event<F>>, n: nat, f: F) {
    n <= |events| && FormatAfter(first, events[..n]) == f && Faulty(ResultsAfter(first, events[..n]))
  }

  ghost predicate FaultySomewhere<F>(first: F, events: seq<Event<F>>, f: F) {
    exists n: nat :: FaultyAt(first, events, n, f)
  }

  /** The counter gets to the threshold in a format exactly if some stretch in that format is faulty. */
  lemma ReachedIffFaulty<F>(first: F, events: seq<Event<F>>, f: F)
    ensures ReachedSomewhere(first, events, f) <==> FaultySomewhere(first, events, f)
  {
    if n: nat :| ReachedAt(first, events, n, f) {
      ReachedIsFaulty(first, events, n, f);
    }
    if n: nat :| FaultyAt(first, events, n, f) {
      var m := FaultyIsReached(first, events, n, f);
    }
  }

  lemma ReachedIsFaulty<F>(first: F, events: seq<Event<F>>, n: nat, f: F)
    requires ReachedAt(first, events, n, f)
    ensures FaultyAt(first, events, n, f)
  {
    var results := ResultsAfter(first, events[..n]);
    assert results[..|results|] == results;
    ThresholdReachedIffFaulty(results);
  }

  lemma FaultyIsReached<F>(first: F, events: seq<Event<F>>, n: nat, f: F) returns (m: nat)
    requires FaultyAt(first, events, n, f)
    ensures ReachedAt(first, events, m, f)
  {
    var results := ResultsAfter(first, events[..n]);
    ThresholdReachedIffFaulty(results);
    var k :| 0 <= k <= |results| && Counter(results[..k]) >= MAX_DECODE_FAIL_COUNTER;
    m := EarlierInStretch(first, events[..n], k);
    assert events[..n][..m] == events[..m];
  }

  // The first k results of the current stretch were once all of them.
  lemma {:induction false} EarlierInStretch<F>(first: F, events: seq<Event<F>>, k: nat) returns (m: nat)
    requires 0 < k <= |ResultsAfter(first, events)|
    ensures m <= |events| && FormatAfter(first, events[..m]) == FormatAfter(first, events)
    ensures ResultsAfter(first, events[..m]) == ResultsAfter(first, events)[..k]
    decreases |events|
  {
    var results := ResultsAfter(first, events);
    if k == |results| {
      m := |events|;
      assert events[..m] == events && results[..k] == results;
    } else {
      var past := events[..|events| - 1];
      m := EarlierInStretch(first, past, k);
      assert past[..m] == events[..m];
      assert ResultsAfter(first, past)[..k] == results[..k];
    }
  }

  /** A reset forgets: after it only the format the decoder had and the events since matter. */
  lemma {:induction false} ResetForgets<F>(first: F, before: seq<Event<F>>, after: seq<Event<F>>)
    ensures ResultsAfter(first, before + [Reset] + after) == ResultsAfter(FormatAfter(first, before), after)
    ensures FormatAfter(first, before + [Reset] + after) == FormatAfter(FormatAfter(first, before), after)
  {
    var events := before + [Reset] + after;
    if after == [] {
      assert events[..|events| - 1] == before && events[|events| - 1] == Reset;
    } else {
      ResetForgets(first, before, after[..|after| - 1]);
      assert events[..|events| - 1] == before + [Reset] + after[..|after| - 1];
    }
  }

  // This event starts a stretch: the first of the run, one after a reset, or in another format than the last.
  ghost predicate Starts<F>(first: F, events: seq<Event<F>>, i: nat)
    requires i < |events|
  {
    events[i].Frame? && (i == 0 || events[i - 1].Reset? || FormatAfter(first, events[..i]) != events[i].format)
  }

  /** A failure that starts a stretch is enough for its format. */
  lemma FirstFailureIsFaulty<F>(first: F, events: seq<Event<F>>, i: nat)
    requires i < |events| && Starts(first, events, i) && events[i].payload == Some(false)
    ensures FaultySomewhere(first, events, events[i].format)
  {
    var past := events[..i];
    assert events[..i + 1] == past + [events[i]] && (past + [events[i]])[..i] == past;
    if 0 < i {
      assert past[|past| - 1] == events[i - 1];
    }
    assert ResultsAfter(first, events[..i + 1]) == [false];
    assert FaultyAt(first, events, i + 1, events[i].format);
  }

  // The part of the login configuration all display threads share under its lock.
  class Unsupported<F(==, !new)> {
    var formats: seq<F>

    ghost predicate Valid()
      reads this
    {
      forall i, j | 0 <= i < j < |formats| :: formats[i] != formats[j]
    }

    constructor ()
      ensures Valid() && formats == []
    {
      formats := [];
    }

    /** The check after every frame: marks the format at most once, whichever thread comes first. */
    method CheckDecoder(handler: VideoHandler<F>, decoderValid: bool) returns (updated: bool)
      requires Valid() && handler.Valid()
      modifies this
      ensures Valid() && old(formats) <= formats
      ensures var bad := !decoderValid || Counter(handler.results) >= MAX_DECODE_FAIL_COUNTER;
              && updated == (bad && handler.format !in old(formats))
              && formats == old(formats) + if updated then [handler.format] else []
    {
      updated := false;
      if !decoderValid || handler.failCounter >= MAX_DECODE_FAIL_COUNTER {
        if handler.format !in formats {
          formats := formats + [handler.format];
          updated := true;
        }
      }
    }

    // One event of a display thread.
    method HandleEvent(handler: VideoHandler<F>, event: Event<F>)
      requires Valid() && handler.Valid()
      modifies this, handler
      ensures Valid() && handler.Valid()
      ensures handler.format == if event.Frame? then event.format else old(handler.format)
      ensures handler.results == MoreResults(old(handler.format), old(handler.results), event)
      ensures forall f: F :: f in formats <==>
                || f in old(formats)
                || (event.Frame? && event.format == f && !event.decoderValid)
                || (handler.format == f && Counter(handler.results) >= MAX_DECODE_FAIL_COUNTER)
    {
      match event {
        case Frame(format, payload, decoderValid) =>
          handler.HandleFrame(format, payload);
          var updated := CheckDecoder(handler, decoderValid);
        case Reset =>
          handler.Reset(None);
      }
    }

    /** A display thread over any run of frames and resets, on whatever decoders: a format ends up marked
        exactly if it was before, or its decoder was invalid at some frame, or some stretch of frames in
        that format without a reset was faulty. */
    method DecodeLoop(handler: VideoHandler<F>, events: seq<Event<F>>)
      requires Valid() && handler.Valid() && handler.results == []
      modifies this, handler
      ensures Valid() && handler.Valid()
      ensures handler.format == FormatAfter(old(handler.format), events)
      ensures handler.results == ResultsAfter(old(handler.format), events)
      ensures forall f: F :: f in formats <==>
                f in old(formats) || InvalidSomewhere(events, f) || FaultySomewhere(old(handler.format), events, f)
      ensures forall i: nat
                | i < |events| && Starts(old(handler.format), events, i) && events[i].payload == Some(false) ::
                events[i].format in formats
    {
      ghost var first := handler.format;
      for i := 0 to |events|
        invariant Valid() && handler.Valid()
        invariant handler.format == FormatAfter(first, events[..i])
        invariant handler.results == ResultsAfter(first, events[..i])
        invariant forall f: F :: f in formats <==>
                    f in old(formats) || InvalidSomewhere(events[..i], f) || ReachedSomewhere(first, events[..i], f)
      {
        assert events[..i + 1] == events[..i] + [events[i]];
        OneMoreEvent(first, events[..i], events[i]);
        HandleEvent(handler, events[i]);
      }
      assert events[..|events|] == events;
      forall f: F
        ensures ReachedSomewhere(first, events, f) <==> FaultySomewhere(first, events, f)
      {
        ReachedIffFaulty(first, events, f);
      }
      forall i: nat | i < |events| && Starts(first, events, i) && events[i].payload == Some(false)
        ensures FaultySomewhere(first, events, events[i].format)
      {
        FirstFailureIsFaulty(first, events, i);
      }
    }
  }
}
