/**
 `race_transports_prefer_webrtc` of src/client.rs: the preferred (WebRTC) attempt against a
 `select_ok` over the other attempts, with a relayed result held for a preference window.

 A schedule is the sequence of completions and timer ticks in the order the loop takes them;
 every interleaving `tokio::select!` may choose is some legal schedule. `select_ok` hides the
 failure of an attempt while others of its set are still running.
 */
module TransportRace {
  import opened Sequences
  import opened Wrappers

  datatype Outcome<+C, +E> = Connected(conn: C, direct: bool) | Failed(error: E)

  datatype Event<+C, +E> =
    | PreferredDone(at: nat, outcome: Outcome<C, E>)
    | OtherDone(at: nat, id: nat, outcome: Outcome<C, E>)
    | WindowFires(at: nat)
  {
    predicate Completes() {
      !WindowFires?
    }

    predicate On(preferred: bool) {
      if preferred then PreferredDone? else OtherDone?
    }

    predicate Direct() {
      Completes() && outcome.Connected? && outcome.direct
    }

    predicate Relayed() {
      Completes() && outcome.Connected? && !outcome.direct
    }
  }

  // `Lost` is the composed message "WebRTC failed: ...; fallback failed: ...".
  datatype RaceResult<+C, +E> = Won(conn: C) | Lost(webrtcError: E, fallbackError: E)

  // ---------------------------------------------------------------------------------------
  // What the race should answer, as a function of what has happened so far
  // ---------------------------------------------------------------------------------------

  predicate PreferredInFlight<C, E>(past: seq<Event<C, E>>) {
    forall i | 0 <= i < |past| :: !past[i].PreferredDone?
  }

  function OthersInFlight<C, E>(others: set<nat>, past: seq<Event<C, E>>): set<nat> {
    set id | id in others && forall i | 0 <= i < |past| :: past[i].OtherDone? ==> past[i].id != id
  }

  predicate NothingInFlight<C, E>(others: set<nat>, past: seq<Event<C, E>>) {
    !PreferredInFlight(past) && OthersInFlight(others, past) == {}
  }

  // The last completion on one side of the race: the preferred attempt, or the others.
  function LastDone<C, E>(past: seq<Event<C, E>>, preferred: bool): (r: Option<nat>)
    ensures r.Some? ==> r.value < |past| && past[r.value].On(preferred)
                        && forall i | r.value < i < |past| :: !past[i].On(preferred)
    ensures r.None? ==> forall i | 0 <= i < |past| :: !past[i].On(preferred)
  {
    if past == [] then None
    else if past[|past| - 1].On(preferred) then Some(|past| - 1)
    else LastDone(past[..|past| - 1], preferred)
  }

  // The first relayed connection, which is the one the loop holds.
  function FirstRelay<C, E>(past: seq<Event<C, E>>): (r: Option<nat>)
    ensures r.Some? ==> r.value < |past| && past[r.value].Relayed()
                        && forall i | 0 <= i < r.value :: !past[i].Relayed()
    ensures r.None? ==> forall i | 0 <= i < |past| :: !past[i].Relayed()
  {
    if past == [] then None
    else if FirstRelay(past[..|past| - 1]).Some? then FirstRelay(past[..|past| - 1])
    else if past[|past| - 1].Relayed() then Some(|past| - 1)
    else None
  }

  /** The race is over as soon as a direct connection lands, the window of a held relay expires,
      or nothing is left in flight. */
  predicate Settled<C, E>(others: set<nat>, past: seq<Event<C, E>>) {
    && past != []
    && (|| past[|past| - 1].Direct()
        || past[|past| - 1].WindowFires?
        || NothingInFlight(others, past))
  }

  /** The result the race should have: the connection that just landed, else the relay held
      first, else the errors of the preferred attempt and of the last other one. */
  ghost predicate IsAnswer<C, E>(past: seq<Event<C, E>>, result: RaceResult<C, E>)
    requires past != []
  {
    var last := past[|past| - 1];
    if last.Direct() || last.Relayed() then
      result == Won(last.outcome.conn)
    else if FirstRelay(past).Some? then
      result == Won(past[FirstRelay(past).value].outcome.conn)
    else
      && result.Lost?
      && FailedLast(past, true, result.webrtcError)
      && FailedLast(past, false, result.fallbackError)
  }

  // The last completion on that side is a failure with this error.
  ghost predicate FailedLast<C, E>(past: seq<Event<C, E>>, preferred: bool, error: E) {
    var last := LastDone(past, preferred);
    last.Some? && past[last.value].outcome == Failed(error)
  }

  // ---------------------------------------------------------------------------------------
  // Schedules
  // ---------------------------------------------------------------------------------------

  /** Each attempt completes at most once, time does not run backwards, and the timer of the
      window fires only once a relay is held, no earlier than `windowMs` after it. */
  ghost predicate Legal<C, E>(others: set<nat>, windowMs: nat, schedule: seq<Event<C, E>>) {
    && (forall i, j | 0 <= i < j < |schedule| :: schedule[i].at <= schedule[j].at)
    && (forall i, j | 0 <= i < j < |schedule| :: !(schedule[i].PreferredDone? && schedule[j].PreferredDone?))
    && (forall i, j | 0 <= i < j < |schedule| ::
          schedule[i].OtherDone? && schedule[j].OtherDone? ==> schedule[i].id != schedule[j].id)
    && (forall i | 0 <= i < |schedule| :: schedule[i].OtherDone? ==> schedule[i].id in others)
    && (forall i | 0 <= i < |schedule| && schedule[i].WindowFires? ::
          WindowMayFire(windowMs, schedule[..i], schedule[i].at))
  }

  predicate WindowMayFire<C, E>(windowMs: nat, past: seq<Event<C, E>>, at: nat) {
    FirstRelay(past).Some? && past[FirstRelay(past).value].at + windowMs <= at
  }

  // Every event of a legal schedule is one the loop's guards let it take.
  lemma LegalEnables<C, E>(others: set<nat>, windowMs: nat, schedule: seq<Event<C, E>>, i: nat)
    requires Legal(others, windowMs, schedule) && i < |schedule|
    ensures schedule[i].PreferredDone? ==> PreferredInFlight(schedule[..i])
    ensures schedule[i].OtherDone? ==> schedule[i].id in OthersInFlight(others, schedule[..i])
    ensures schedule[i].WindowFires? ==> WindowMayFire(windowMs, schedule[..i], schedule[i].at)
  {
  }

  // The run takes exactly the first `taken` events of the schedule.
  ghost predicate Running<C, E>(others: set<nat>, past: seq<Event<C, E>>) {
    forall n | 0 <= n <= |past| :: !Settled(others, past[..n])
  }

  // What one more event changes.
  lemma EventTaken<C, E>(others: set<nat>, past: seq<Event<C, E>>, event: Event<C, E>)
    requires Running(others, past)
    ensures (past + [event])[..|past|] == past
    ensures !Settled(others, past + [event]) ==> Running(others, past + [event])
    ensures PreferredInFlight(past + [event]) == (PreferredInFlight(past) && !event.PreferredDone?)
    ensures OthersInFlight(others, past + [event]) ==
            OthersInFlight(others, past) - if event.OtherDone? then {event.id} else {}
    ensures Settled(others, past + [event]) <==>
            || event.Direct() || event.WindowFires?
            || (!PreferredInFlight(past + [event]) && OthersInFlight(others, past + [event]) == {})
  {
    var extended := past + [event];
    assert extended[|past|] == event && forall i | 0 <= i < |past| :: extended[i] == past[i];
    if !Settled(others, extended) {
      RunningStep(others, past, event);
    }
  }

  // ... and the history looked back at.
  lemma HistoryTaken<C, E>(past: seq<Event<C, E>>, event: Event<C, E>)
    ensures FirstRelay(past + [event]) == if FirstRelay(past).Some? then FirstRelay(past)
                                          else if event.Relayed() then Some(|past|) else None
    ensures FirstRelay(past).Some? ==> (past + [event])[FirstRelay(past).value] == past[FirstRelay(past).value]
    ensures forall preferred, error :: FailedLast(past + [event], preferred, error) ==
              if event.On(preferred) then event.outcome == Failed(error) else FailedLast(past, preferred, error)
  {
    var extended := past + [event];
    assert extended[..|past|] == past;
  }

  lemma RunningStep<C, E>(others: set<nat>, past: seq<Event<C, E>>, event: Event<C, E>)
    requires Running(others, past) && !Settled(others, past + [event])
    ensures Running(others, past + [event])
  {
    forall n | 0 <= n <= |past| + 1
      ensures !Settled(others, (past + [event])[..n])
    {
      if n <= |past| {
        assert (past + [event])[..n] == past[..n];
      } else {
        assert (past + [event])[..n] == past + [event];
      }
    }
  }

  // ---------------------------------------------------------------------------------------
  // The loop
  // ---------------------------------------------------------------------------------------

  /** The locals of the loop. An arm returns the result that ends the race, or `None` to go on. */
  class Race<C, E> {
    ghost const others: set<nat>
    ghost var past: seq<Event<C, E>>
    const windowMs: nat
    var webrtcPending: bool       // webrtc_fut.is_some()
    var othersPending: set<nat>   // the futures inside others_fut; {} stands for None
    var held: Option<C>
    var webrtcErr: Option<E>
    var othersErr: Option<E>
    var windowStarted: bool
    var deadline: nat

    // A relay is held iff the window is armed, the two sides are never both gone, and a stored
    // error means that the other side is still pending.
    ghost predicate Valid()
      reads this
    {
      && Running(others, past)
      && webrtcPending == PreferredInFlight(past) && othersPending == OthersInFlight(others, past)
      && (webrtcPending || othersPending != {})
      && |othersPending| + (if webrtcPending then 1 else 0) + |past| == |others| + 1
      && windowStarted == held.Some? == FirstRelay(past).Some?
      && (held.Some? ==> HoldsFirstRelay())
      && (webrtcErr.Some? ==> !webrtcPending && FailedLast(past, true, webrtcErr.value))
      && (othersErr.Some? ==> othersPending == {} && FailedLast(past, false, othersErr.value))
      && (!webrtcPending ==> held.Some? || webrtcErr.Some?)
      && (othersPending == {} ==> held.Some? || othersErr.Some?)
    }

    ghost predicate HoldsFirstRelay()
      requires FirstRelay(past).Some? && held.Some?
      reads this
    {
      var relay := past[FirstRelay(past).value];
      held.value == relay.outcome.conn && deadline == relay.at + windowMs
    }

    // What an arm establishes: the right result at the right moment, or the loop's invariant.
    ghost predicate Took(result: Option<RaceResult<C, E>>)
      reads this
    {
      past != [] && if result.Some? then Settled(others, past) && IsAnswer(past, result.value) else Valid()
    }

    constructor (others: set<nat>, windowMs: nat)
      requires others != {}
      ensures Valid() && past == [] && this.others == others && this.windowMs == windowMs
    {
      this.others, this.windowMs := others, windowMs;
      webrtcPending, othersPending := true, others;
      held, webrtcErr, othersErr := None, None, None;
      windowStarted, deadline, past := false, windowMs, [];
    }

    method Hold(conn: C, at: nat)
      modifies this`held, this`deadline, this`windowStarted
      ensures if old(held).None?
              then held == Some(conn) && deadline == at + windowMs && windowStarted
              else held == old(held) && deadline == old(deadline) && windowStarted == old(windowStarted)
    {
      if held.None? {
        held, deadline, windowStarted := Some(conn), at + windowMs, true;
      }
    }

    method TakePreferred(at: nat, outcome: Outcome<C, E>) returns (result: Option<RaceResult<C, E>>)
      requires Valid() && webrtcPending
      modifies this
      ensures Took(result) && past == old(past) + [PreferredDone(at, outcome)]
    {
      ghost var before := past;
      past := past + [PreferredDone(at, outcome)];
      EventTaken(others, before, PreferredDone(at, outcome));
      HistoryTaken(before, PreferredDone(at, outcome));
      webrtcPending := false;
      match outcome {
        case Connected(conn, direct) =>
          if direct || othersPending == {} {
            return Some(Won(conn));
          }
          Hold(conn, at);
        case Failed(e) =>
          if othersPending == {} && held.Some? {
            return Some(Won(held.value));
          }
          if othersErr.Some? {
            return Some(Lost(e, othersErr.value));
          }
          assert othersPending != {};              // "WebRTC failed" on its own is unreachable
          webrtcErr := Some(e);
      }
      result := None;
    }

    method TakeOther(at: nat, id: nat, outcome: Outcome<C, E>) returns (result: Option<RaceResult<C, E>>)
      requires Valid() && id in othersPending
      modifies this
      ensures Took(result) && past == old(past) + [OtherDone(at, id, outcome)]
    {
      ghost var before := past;
      past := past + [OtherDone(at, id, outcome)];
      EventTaken(others, before, OtherDone(at, id, outcome));
      HistoryTaken(before, OtherDone(at, id, outcome));
      othersPending := othersPending - {id};
      match outcome {
        case Connected(conn, direct) =>
          if direct || (!webrtcPending && othersPending == {}) {
            return Some(Won(conn));
          }
          Hold(conn, at);
        case Failed(e) =>
          if othersPending == {} {                 // otherwise `select_ok` keeps it to itself
            if webrtcErr.Some? {
              return Some(if held.Some? then Won(held.value) else Lost(webrtcErr.value, e));
            }
            if !webrtcPending {
              if held.Some? {
                return Some(Won(held.value));
              }
              assert false;                        // `return Err(e)` is unreachable
            }
            othersErr := Some(e);
          }
      }
      result := None;
    }

    method TakeWindow(at: nat) returns (result: Option<RaceResult<C, E>>)
      requires Valid() && windowStarted && deadline <= at
      modifies this
      ensures Took(result) && result.Some? && past == old(past) + [WindowFires(at)]
    {
      ghost var before := past;
      past := past + [WindowFires(at)];
      EventTaken(others, before, WindowFires(at));
      if held.Some? {
        return Some(Won(held.value));
      }
      assert false;                                // `window_started = false` is unreachable
    }

    // The guard of the arm that takes the event.
    ghost predicate Enabled(event: Event<C, E>)
      reads this
    {
      match event
      case PreferredDone(_, _) => webrtcPending
      case OtherDone(_, id, _) => id in othersPending
      case WindowFires(at) => windowStarted && deadline <= at
    }

    lemma NextIsEnabled(schedule: seq<Event<C, E>>, i: nat)
      requires Legal(others, windowMs, schedule) && i < |schedule| && Valid() && past == schedule[..i]
      ensures Enabled(schedule[i])
    {
      LegalEnables(others, windowMs, schedule, i);
    }

    // One turn of the loop.
    method Take(event: Event<C, E>) returns (result: Option<RaceResult<C, E>>)
      requires Valid() && Enabled(event)
      modifies this
      ensures Took(result) && past == old(past) + [event]
    {
      match event {
        case PreferredDone(at, outcome) => result := TakePreferred(at, outcome);
        case OtherDone(at, id, outcome) => result := TakeOther(at, id, outcome);
        case WindowFires(at) => result := TakeWindow(at);
      }
    }

    // ... within a schedule.
    method TakeNext(schedule: seq<Event<C, E>>, i: nat) returns (result: Option<RaceResult<C, E>>)
      requires Legal(others, windowMs, schedule) && i < |schedule| && Valid() && past == schedule[..i]
      modifies this
      ensures past == schedule[..i + 1]
      ensures if result.Some? then IsOutcome(others, schedule, result, i + 1) else Valid()
    {
      NextIsEnabled(schedule, i);
      PrefixStep(schedule, i);
      result := Take(schedule[i]);
      if result.Some? {
        EndsWith(others, schedule, i, result.value);
      }
    }
  }

  lemma EndsWith<C, E>(others: set<nat>, schedule: seq<Event<C, E>>, i: nat, answer: RaceResult<C, E>)
    requires i < |schedule| && Running(others, schedule[..i])
    requires Settled(others, schedule[..i + 1]) && IsAnswer(schedule[..i + 1], answer)
    ensures IsOutcome(others, schedule, Some(answer), i + 1)
  {
  }

  /** What the loop makes of a schedule: it stops at the first event that settles the race, with the
      answer that event calls for, or goes on past all of them. */
  ghost predicate IsOutcome<C, E>(others: set<nat>, schedule: seq<Event<C, E>>, result: Option<RaceResult<C, E>>,
                                  taken: nat)
  {
    && taken <= |schedule|
    && match result
       case Some(answer) =>
         && 0 < taken && Running(others, schedule[..taken - 1])
         && Settled(others, schedule[..taken]) && IsAnswer(schedule[..taken], answer)
       case None => taken == |schedule| && Running(others, schedule)
  }

  method RaceTransportsPreferWebrtc<C, E>(others: set<nat>, windowMs: nat, schedule: seq<Event<C, E>>)
    returns (result: Option<RaceResult<C, E>>, taken: nat)
    requires others != {} && Legal(others, windowMs, schedule)
    ensures IsOutcome(others, schedule, result, taken) && taken <= |others| + 1
  {
    var race := new Race<C, E>(others, windowMs);
    for i := 0 to |schedule|
      invariant race.Valid() && race.past == schedule[..i] && fresh(race)
      invariant race.others == others && race.windowMs == windowMs && i <= |others| + 1
    {
      result := race.TakeNext(schedule, i);
      if result.Some? {
        return result, i + 1;
      }
    }
    assert schedule[..|schedule|] == schedule;
    return None, |schedule|;
  }

  // ---------------------------------------------------------------------------------------
  // What this means for every run
  // ---------------------------------------------------------------------------------------

  // The run ends exactly with the last event of `past`.
  ghost predicate EndsAt<C, E>(others: set<nat>, past: seq<Event<C, E>>) {
    past != [] && Running(others, past[..|past| - 1]) && Settled(others, past)
  }

  /** A run cannot outlast its attempts: once all have completed, some event of it has ended the race. */
  lemma EveryRunEnds<C, E>(others: set<nat>, past: seq<Event<C, E>>)
    requires exists i :: 0 <= i < |past| && past[i].PreferredDone?
    requires forall id | id in others :: exists i :: 0 <= i < |past| && past[i].OtherDone? && past[i].id == id
    ensures exists n :: 0 < n <= |past| && EndsAt(others, past[..n])
  {
    AllTaken(others, past, |past|);
    assert past[..|past|] == past;
    FirstSettled(others, past);
  }

  lemma {:induction false} FirstSettled<C, E>(others: set<nat>, past: seq<Event<C, E>>)
    requires Settled(others, past)
    ensures exists n :: 0 < n <= |past| && EndsAt(others, past[..n])
    decreases |past|
  {
    var before := past[..|past| - 1];
    if Running(others, before) {
      assert past[..|past|] == past;
    } else {
      var m :| 0 <= m <= |before| && Settled(others, before[..m]);
      assert before[..m] == past[..m];
      FirstSettled(others, past[..m]);
      var n :| 0 < n <= m && EndsAt(others, past[..m][..n]);
      assert past[..m][..n] == past[..n];
    }
  }

  /** A direct connection ends the race by itself and wins it, unless another direct one or the end of
      the preference window came first; what relays did before makes no difference. */
  lemma DirectWinsAtOnce<C, E>(others: set<nat>, windowMs: nat, schedule: seq<Event<C, E>>,
                               result: Option<RaceResult<C, E>>, taken: nat, direct: nat)
    requires Legal(others, windowMs, schedule) && IsOutcome(others, schedule, result, taken)
    requires direct < |schedule| && !schedule[direct].WindowFires?
    requires schedule[direct].outcome.Connected? && schedule[direct].outcome.direct
    ensures result.Some? && taken <= direct + 1
    ensures var last := schedule[taken - 1];
            if taken == direct + 1 then result == Some(Won(last.outcome.conn))
            else last.WindowFires? || (last.outcome.Connected? && last.outcome.direct)
  {
    DirectSettles(others, schedule, direct);
    StopsBy(others, schedule, result, taken, direct + 1);
    LastDecides(others, schedule, result.value, taken);
    if taken < direct + 1 {
      StillInFlight(others, windowMs, schedule, taken, direct);
    }
  }

  // The last event is what settles the race.
  lemma LastDecides<C, E>(others: set<nat>, schedule: seq<Event<C, E>>, result: RaceResult<C, E>, taken: nat)
    requires IsOutcome(others, schedule, Some(result), taken)
    ensures var last := schedule[taken - 1];
            && (last.Direct() ==> result == Won(last.outcome.conn))
            && (last.Direct() || last.WindowFires? || NothingInFlight(others, schedule[..taken]))
  {
    assert schedule[..taken][taken - 1] == schedule[taken - 1];
  }

  lemma DirectSettles<C, E>(others: set<nat>, schedule: seq<Event<C, E>>, direct: nat)
    requires direct < |schedule| && schedule[direct].Direct()
    ensures Settled(others, schedule[..direct + 1])
  {
  }

  // Nothing is taken after what settles the race.
  lemma StopsBy<C, E>(others: set<nat>, schedule: seq<Event<C, E>>, result: Option<RaceResult<C, E>>, taken: nat,
                      n: nat)
    requires IsOutcome(others, schedule, result, taken) && n <= |schedule| && Settled(others, schedule[..n])
    ensures result.Some? && taken <= n
  {
    if n < taken {
      PrefixOfPrefix(schedule, taken - 1, n);
    }
  }

  // Before a completion its attempt is in flight.
  lemma StillInFlight<C, E>(others: set<nat>, windowMs: nat, schedule: seq<Event<C, E>>, n: nat, i: nat)
    requires Legal(others, windowMs, schedule) && n <= i < |schedule| && schedule[i].Completes()
    ensures !NothingInFlight(others, schedule[..n])
  {
    LegalEnables(others, windowMs, schedule, i);
    assert forall k | 0 <= k < n :: schedule[..n][k] == schedule[k] == schedule[..i][k];
    if schedule[i].OtherDone? {
      assert schedule[i].id in OthersInFlight(others, schedule[..n]);
    }
  }

  /** A race that no direct connection ends goes on until nothing is left in flight, or else until the
      window of the relay held first has run out, and then that relay wins. */
  lemma RelayWaitsItsTurn<C, E>(others: set<nat>, windowMs: nat, schedule: seq<Event<C, E>>,
                                result: RaceResult<C, E>, taken: nat)
    requires Legal(others, windowMs, schedule) && IsOutcome(others, schedule, Some(result), taken)
    requires var last := schedule[taken - 1]; last.WindowFires? || last.outcome.Failed? || !last.outcome.direct
    ensures || ((exists i :: 0 <= i < taken && schedule[i].PreferredDone?)
                && forall id | id in others ::
                     exists i :: 0 <= i < taken && schedule[i].OtherDone? && schedule[i].id == id)
            || exists relay :: && 0 <= relay < taken - 1 && !schedule[relay].WindowFires?
                               && schedule[relay].outcome.Connected? && !schedule[relay].outcome.direct
                               && (forall k | 0 <= k < relay :: schedule[k].WindowFires? || schedule[k].outcome.Failed?)
                               && schedule[relay].at + windowMs <= schedule[taken - 1].at
                               && result == Won(schedule[relay].outcome.conn)
  {
    AllTaken(others, schedule, taken);
    if !NothingInFlight(others, schedule[..taken]) {
      LegalPrefix(others, windowMs, schedule, taken);
      OutcomeEnds(others, schedule, result, taken);
      EndsLate(others, windowMs, schedule[..taken], result);
      WindowOutcome(others, windowMs, schedule, taken, result);
    }
  }

  lemma OutcomeEnds<C, E>(others: set<nat>, schedule: seq<Event<C, E>>, result: RaceResult<C, E>, taken: nat)
    requires IsOutcome(others, schedule, Some(result), taken)
    ensures EndsAt(others, schedule[..taken]) && IsAnswer(schedule[..taken], result)
    ensures schedule[..taken][taken - 1] == schedule[taken - 1]
  {
    PrefixOfPrefix(schedule, taken, taken - 1);
  }

  lemma WindowOutcome<C, E>(others: set<nat>, windowMs: nat, schedule: seq<Event<C, E>>, n: nat,
                            result: RaceResult<C, E>)
    requires 0 < n <= |schedule| && EndsAt(others, schedule[..n]) && WindowEnds(windowMs, schedule[..n], result)
    ensures exists relay :: && 0 <= relay < n - 1 && !schedule[relay].WindowFires?
                            && schedule[relay].outcome.Connected? && !schedule[relay].outcome.direct
                            && (forall k | 0 <= k < relay :: schedule[k].WindowFires? || schedule[k].outcome.Failed?)
                            && schedule[relay].at + windowMs <= schedule[n - 1].at
                            && result == Won(schedule[relay].outcome.conn)
  {
    var relay := FirstRelay(schedule[..n]).value;
    FirstRelayIsFirst(others, schedule, n, relay);
    assert schedule[..n][relay] == schedule[relay] && schedule[..n][n - 1] == schedule[n - 1];
  }

  lemma AllTaken<C, E>(others: set<nat>, schedule: seq<Event<C, E>>, n: nat)
    requires n <= |schedule|
    ensures NothingInFlight(others, schedule[..n]) <==>
            && (exists i :: 0 <= i < n && schedule[i].PreferredDone?)
            && forall id | id in others :: exists i :: 0 <= i < n && schedule[i].OtherDone? && schedule[i].id == id
  {
    var past := schedule[..n];
    assert forall i | 0 <= i < n :: past[i] == schedule[i];
    forall id | id in others
      ensures id !in OthersInFlight(others, past) <==>
              exists i :: 0 <= i < n && schedule[i].OtherDone? && schedule[i].id == id
    {
    }
  }

  lemma FirstRelayIsFirst<C, E>(others: set<nat>, schedule: seq<Event<C, E>>, n: nat, relay: nat)
    requires n <= |schedule| && EndsAt(others, schedule[..n])
    requires FirstRelay(schedule[..n]) == Some(relay) && relay < n - 1
    ensures !schedule[relay].WindowFires? && schedule[relay].outcome.Connected? && !schedule[relay].outcome.direct
    ensures forall k | 0 <= k < relay :: schedule[k].WindowFires? || schedule[k].outcome.Failed?
  {
    var past := schedule[..n];
    assert past[relay] == schedule[relay];
    forall k | 0 <= k < relay
      ensures schedule[k].WindowFires? || schedule[k].outcome.Failed?
    {
      NoEarlierDirect(others, past, k);
      assert past[k] == schedule[k];
    }
  }

  lemma LegalPrefix<C, E>(others: set<nat>, windowMs: nat, schedule: seq<Event<C, E>>, n: nat)
    requires Legal(others, windowMs, schedule) && n <= |schedule|
    ensures Legal(others, windowMs, schedule[..n])
  {
    forall i | 0 <= i < n
      ensures schedule[..n][..i] == schedule[..i]
    {
      PrefixOfPrefix(schedule, n, i);
    }
  }

  // The relay held first wins with its window over.
  ghost predicate WindowEnds<C, E>(windowMs: nat, past: seq<Event<C, E>>, result: RaceResult<C, E>)
    requires past != []
  {
    var first := FirstRelay(past);
    && first.Some? && first.value < |past| - 1
    && past[first.value].at + windowMs <= past[|past| - 1].at
    && result == Won(past[first.value].outcome.conn)
  }

  lemma EndsLate<C, E>(others: set<nat>, windowMs: nat, past: seq<Event<C, E>>, result: RaceResult<C, E>)
    requires Legal(others, windowMs, past) && EndsAt(others, past) && IsAnswer(past, result)
    requires !past[|past| - 1].Direct()
    ensures NothingInFlight(others, past) || WindowEnds(windowMs, past, result)
  {
  }

  // Every attempt has completed, and completed with an error.
  ghost predicate AllFailed<C, E>(others: set<nat>, past: seq<Event<C, E>>) {
    && (exists i :: 0 <= i < |past| && past[i].PreferredDone? && past[i].outcome.Failed?)
    && forall id | id in others ::
         exists i :: 0 <= i < |past| && past[i].OtherDone? && past[i].id == id && past[i].outcome.Failed?
  }

  // Nothing direct was taken before the last event.
  lemma NoEarlierDirect<C, E>(others: set<nat>, past: seq<Event<C, E>>, i: nat)
    requires EndsAt(others, past) && i < |past| - 1
    ensures !past[i].Direct() && !past[i].WindowFires?
  {
    var before := past[..|past| - 1];
    assert !Settled(others, before[..i + 1]);
    assert before[..i + 1][i] == past[i];
  }

  /** No connection is lost to an error: the race fails exactly when every attempt failed. */
  lemma LostIffAllFailed<C, E>(others: set<nat>, windowMs: nat, past: seq<Event<C, E>>, result: RaceResult<C, E>)
    requires Legal(others, windowMs, past) && EndsAt(others, past) && IsAnswer(past, result)
    ensures result.Lost? <==> AllFailed(others, past)
  {
    if result.Lost? {
      AllDoneAllFailed(others, windowMs, past);
    } else if AllFailed(others, past) {
      AllFailedNoConnection(others, windowMs, past);
    }
  }

  lemma NoRelayNoWindow<C, E>(others: set<nat>, windowMs: nat, past: seq<Event<C, E>>)
    requires Legal(others, windowMs, past) && EndsAt(others, past)
    requires !past[|past| - 1].Direct() && FirstRelay(past).None?
    ensures NothingInFlight(others, past)
  {
  }

  lemma AllDoneAllFailed<C, E>(others: set<nat>, windowMs: nat, past: seq<Event<C, E>>)
    requires Legal(others, windowMs, past) && EndsAt(others, past)
    requires !past[|past| - 1].Direct() && FirstRelay(past).None?
    ensures AllFailed(others, past)
  {
    NoRelayNoWindow(others, windowMs, past);
    assert NothingInFlight(others, past);
    forall i | 0 <= i < |past| && past[i].Completes()
      ensures past[i].outcome.Failed?
    {
      if i < |past| - 1 {
        NoEarlierDirect(others, past, i);
      }
    }
    forall id | id in others
      ensures exists i :: 0 <= i < |past| && past[i].OtherDone? && past[i].id == id && past[i].outcome.Failed?
    {
      assert id !in OthersInFlight(others, past);
    }
  }

  lemma AllFailedNoConnection<C, E>(others: set<nat>, windowMs: nat, past: seq<Event<C, E>>)
    requires Legal(others, windowMs, past) && AllFailed(others, past)
    ensures forall i | 0 <= i < |past| && past[i].Completes() :: past[i].outcome.Failed?
    ensures FirstRelay(past).None?
  {
    forall i | 0 <= i < |past| && past[i].Completes()
      ensures past[i].outcome.Failed?
    {
      if past[i].PreferredDone? {
        var p :| 0 <= p < |past| && past[p].PreferredDone? && past[p].outcome.Failed?;
        assert p < i || i < p || p == i;
      } else {
        var id := past[i].id;
        var p :| 0 <= p < |past| && past[p].OtherDone? && past[p].id == id && past[p].outcome.Failed?;
        assert p < i || i < p || p == i;
      }
    }
  }

  // Some attempt ended in a connection with this event.
  predicate Connects<C, E>(event: Event<C, E>) {
    !event.WindowFires? && event.outcome.Connected?
  }

  /** Who wins: the connection that has just landed and ended the race, else the first one that did not
      end it; only without any connection is there an error. */
  lemma WhoWins<C, E>(others: set<nat>, schedule: seq<Event<C, E>>, result: RaceResult<C, E>, taken: nat)
    requires IsOutcome(others, schedule, Some(result), taken)
    ensures Connects(schedule[taken - 1]) ==> result == Won(schedule[taken - 1].outcome.conn)
    ensures forall i | 0 <= i < taken && Connects(schedule[i]) && !Connects(schedule[taken - 1])
                       && (forall k | 0 <= k < i :: !Connects(schedule[k])) ::
              result == Won(schedule[i].outcome.conn)
    ensures result.Lost? <==> forall i | 0 <= i < taken :: !Connects(schedule[i])
  {
    var past := schedule[..taken];
    PrefixOfPrefix(schedule, taken, taken - 1);
    forall i | 0 <= i < taken
      ensures past[i] == schedule[i] && (i < taken - 1 && Connects(past[i]) ==> past[i].Relayed())
    {
      if i < taken - 1 {
        NoEarlierDirect(others, past, i);
      }
    }
    if FirstRelay(past).None? {
      assert forall i | 0 <= i < taken - 1 :: !Connects(schedule[i]);
    } else {
      assert Connects(schedule[FirstRelay(past).value]);
    }
  }

  /** ... and it is made of the error of the preferred attempt and that of the last other one, each in
      its place. */
  lemma ErrorsInPlace<C, E>(others: set<nat>, schedule: seq<Event<C, E>>, webrtcError: E, fallbackError: E, taken: nat)
    requires IsOutcome(others, schedule, Some(Lost(webrtcError, fallbackError)), taken)
    ensures exists i :: 0 <= i < taken && schedule[i].PreferredDone? && schedule[i].outcome == Failed(webrtcError)
    ensures exists j :: 0 <= j < taken && schedule[j].OtherDone? && schedule[j].outcome == Failed(fallbackError)
                        && forall k | j < k < taken :: !schedule[k].OtherDone?
  {
    var past := schedule[..taken];
    var i, j := LastDone(past, true).value, LastDone(past, false).value;
    assert past[i] == schedule[i] && past[j] == schedule[j];
    assert forall k | j < k < taken :: past[k] == schedule[k];
  }

  /** The timer of an armed window is served before anything later than its deadline. */
  ghost predicate Punctual<C, E>(windowMs: nat, schedule: seq<Event<C, E>>) {
    forall i, relay | 0 <= relay < i < |schedule| && FirstRelay(schedule[..i]) == Some(relay)
                      && schedule[relay].at + windowMs < schedule[i].at ::
      exists k :: relay < k < i && schedule[k].WindowFires?
  }

  /** The race settles no later than `windowMs` after the first relay it takes. */
  lemma SettlesWithinWindow<C, E>(others: set<nat>, windowMs: nat, past: seq<Event<C, E>>, relay: nat)
    requires Legal(others, windowMs, past) && Punctual(windowMs, past) && EndsAt(others, past)
    requires FirstRelay(past) == Some(relay)
    ensures past[|past| - 1].at <= past[relay].at + windowMs
  {
    var last := |past| - 1;
    if relay < last {
      FirstRelayStable(past, last, relay);
      if past[relay].at + windowMs < past[last].at {
        var k :| relay < k < last && past[k].WindowFires?;
        NoEarlierDirect(others, past, k);
      }
    }
  }

  lemma FirstRelayStable<C, E>(past: seq<Event<C, E>>, n: nat, relay: nat)
    requires relay < n <= |past| && FirstRelay(past) == Some(relay)
    ensures FirstRelay(past[..n]) == Some(relay)
  {
    assert past[..n][relay] == past[relay];
    forall i | 0 <= i < n ensures past[..n][i] == past[i] {}
  }
}
