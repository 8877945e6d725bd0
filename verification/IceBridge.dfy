/**
 The ICE candidates of src/client.rs: the outbound bridge, which sends every local candidate
 and re-sends it once, and the bounded buffer of inbound candidates that arrive before the
 answer does.
 */
module IceBridge {
  import opened Sequences

  const WEBRTC_ICE_RESEND_DELAY: nat := 400
  const MAX_PENDING_WEBRTC_ICE: nat := 64

  datatype Entry<+M> = Entry(since: nat, message: M)

  function Messages<M>(entries: seq<Entry<M>>): (messages: seq<M>)
    ensures |messages| == |entries| && forall i | 0 <= i < |entries| :: messages[i] == entries[i].message
  {
    seq(|entries|, i requires 0 <= i < |entries| => entries[i].message)
  }

  class Bridge<M(==, !new)> {
    var pendingResend: seq<Entry<M>>
    var clock: nat

    ghost var drained: seq<M>   // candidates taken from the local agent
    ghost var sends: seq<M>     // attempts to send one over the socket

    // Every drained candidate has been sent once, and once more unless it is still pending.
    ghost predicate Valid()
      reads this
    {
      && forall m :: && Count(sends, m) + Count(Messages(pendingResend), m) == 2 * Count(drained, m)
                     && Count(Messages(pendingResend), m) <= Count(drained, m)
    }

    // What also holds once the bridge has given up on a failed send.
    ghost predicate AtMostTwice()
      reads this
    {
      forall m :: Count(sends, m) <= 2 * Count(drained, m)
    }

    constructor ()
      ensures Valid() && pendingResend == [] && drained == sends == []
    {
      pendingResend, clock, drained, sends := [], 0, [], [];
    }

    // Time passes, by any amount.
    method Now() returns (now: nat)
      modifies this`clock
      ensures old(clock) <= clock == now
    {
      var elapsed: nat :| true;
      clock := clock + elapsed;
      now := clock;
    }

    // A bounded `socket.send`, which may fail or time out.
    method Send(message: M) returns (ok: bool)
      modifies this`sends
      ensures sends == old(sends) + [message]
    {
      sends := sends + [message];
      ok := *;
    }

    /** Send one candidate the local agent has gathered, and remember it for the second copy. */
    method DrainOne(candidate: M) returns (ok: bool)
      requires Valid()
      modifies this
      ensures AtMostTwice() && drained == old(drained) + [candidate] && old(clock) <= clock
      ensures sends == old(sends) + [candidate]
      ensures ok ==> Valid() && pendingResend == old(pendingResend) + [Entry(clock, candidate)]
    {
      drained := drained + [candidate];
      ok := Send(candidate);
      CountPush(old(drained), candidate);
      CountPush(old(sends), candidate);
      CountPush(Messages(pendingResend), candidate);
      if !ok {
        return;
      }
      var now := Now();
      assert Messages(pendingResend + [Entry(now, candidate)]) == Messages(pendingResend) + [candidate];
      pendingResend := pendingResend + [Entry(now, candidate)];
    }

    ghost predicate Due(entry: Entry<M>, now: nat) {
      entry.since + WEBRTC_ICE_RESEND_DELAY <= now
    }

    /** Take entry `i` off the list with `swap_remove` and send its second copy. */
    method ResendOne(i: nat) returns (ok: bool)
      requires Valid() && i < |pendingResend|
      modifies this`pendingResend, this`sends
      ensures Valid() && pendingResend == SwapRemove(old(pendingResend), i)
      ensures sends == old(sends) + [old(pendingResend)[i].message]
    {
      var message := pendingResend[i].message;
      CountPush(sends, message);
      SwapRemoveCount(Messages(pendingResend), i, 0);
      assert Messages(pendingResend)[0..] == Messages(pendingResend);
      assert Messages(SwapRemove(pendingResend, i)) == SwapRemove(Messages(pendingResend), i)[0..];
      pendingResend := SwapRemove(pendingResend, i);
      ok := Send(message);
    }

    /** Drain everything gathered since the last round; a failed send ends the bridge in the middle. */
    method Drain(candidates: seq<M>) returns (ok: bool, ghost taken: nat)
      requires Valid()
      modifies this
      ensures AtMostTwice() && old(clock) <= clock
      ensures taken <= |candidates| && drained == old(drained) + candidates[..taken]
      ensures ok ==> && Valid() && taken == |candidates|
                     && Messages(pendingResend) == Messages(old(pendingResend)) + candidates
    {
      for i := 0 to |candidates|
        invariant Valid() && old(clock) <= clock && drained == old(drained) + candidates[..i]
        invariant Messages(pendingResend) == Messages(old(pendingResend)) + candidates[..i]
      {
        ok := DrainOne(candidates[i]);
        assert candidates[..i + 1] == candidates[..i] + [candidates[i]];
        if !ok {
          return ok, i + 1;
        }
      }
      assert candidates[..|candidates|] == candidates;
      return true, |candidates|;
    }

    // One turn of the resend loop: send entry i again if it is due.
    method Visit(i: nat) returns (ok: bool, due: bool)
      requires Valid() && i < |pendingResend|
      modifies this
      ensures Valid() && drained == old(drained) && old(clock) <= clock
      ensures due ==> && Due(old(pendingResend)[i], clock) && pendingResend == SwapRemove(old(pendingResend), i)
                      && sends == old(sends) + [old(pendingResend)[i].message]
      ensures !due ==> && ok && !Due(old(pendingResend)[i], old(clock))
                       && pendingResend == old(pendingResend) && sends == old(sends)
    {
      var now := Now();
      due := now - pendingResend[i].since >= WEBRTC_ICE_RESEND_DELAY;
      ok := true;
      if due {
        ok := ResendOne(i);
      }
    }

    /** The resend loop terminates and looks at every entry once. What it re-sends was due by the
        end, what it keeps was not due at the start: on a clock that stands still the split is exact. */
    method ResendDue() returns (ok: bool, ghost visited: seq<Entry<M>>, ghost resent: seq<Entry<M>>)
      requires Valid()
      modifies this
      ensures Valid() && drained == old(drained) && old(clock) <= clock
      ensures sends == old(sends) + Messages(resent)
      ensures forall entry :: Count(old(pendingResend), entry) == Count(pendingResend, entry) + Count(resent, entry)
      ensures forall k | 0 <= k < |resent| :: resent[k].since + 400 <= clock
      ensures ok ==> forall entry :: Count(visited, entry) == Count(old(pendingResend), entry)
      ensures ok ==> forall k | 0 <= k < |pendingResend| :: old(clock) < pendingResend[k].since + 400
    {
      var i := 0;
      visited, resent := [], [];
      assert pendingResend[0..] == pendingResend;
      while i < |pendingResend|
        invariant i <= |pendingResend| && Valid() && drained == old(drained) && old(clock) <= clock
        invariant sends == old(sends) + Messages(resent)
        invariant Accounts(old(pendingResend), pendingResend, i, resent, visited)
        invariant forall k | 0 <= k < |resent| :: Due(resent[k], clock)
        invariant forall k | 0 <= k < i :: !Due(pendingResend[k], old(clock))
        decreases |pendingResend| - i
      {
        ghost var before := pendingResend;
        var sent, due := Visit(i);
        if due {
          AccountsDue(old(pendingResend), before, i, resent, visited);
          assert Messages(resent + [before[i]]) == Messages(resent) + [before[i].message];
          visited, resent := visited + [before[i]], resent + [before[i]];
          if !sent {
            return false, visited, resent;
          }
        } else {
          AccountsKept(old(pendingResend), before, i, resent, visited);
          visited := visited + [before[i]];
          i := i + 1;
        }
      }
      ok := true;
    }

    // One round: drain, then send again what is due.
    method Round(candidates: seq<M>) returns (ok: bool, ghost taken: nat)
      requires Valid()
      modifies this
      ensures AtMostTwice() && taken <= |candidates| && drained == old(drained) + candidates[..taken]
      ensures ok ==> Valid() && taken == |candidates|
      ensures old(clock) <= clock
      ensures ok ==> forall k | 0 <= k < |pendingResend| :: old(clock) < pendingResend[k].since + 400
    {
      ok, taken := Drain(candidates);
      if ok {
        ghost var visited, resent;
        ok, visited, resent := ResendDue();
      }
    }

    /** The bridge over any number of rounds, until it is stopped or a send fails in round `done`: it has
        taken the candidates in order, none is ever sent more than twice, and what is not yet sent again
        was taken less than 400 ms before the last round began. */
    method Run(rounds: seq<seq<M>>) returns (ok: bool, ghost done: nat, ghost taken: nat, ghost began: nat)
      requires Valid()
      modifies this
      ensures (forall m :: Count(sends, m) <= 2 * Count(drained, m)) && (ok ==> Valid())
      ensures if ok then done <= |rounds| && drained == old(drained) + Flatten(rounds[..done])
              else && done < |rounds| && taken <= |rounds[done]|
                   && drained == old(drained) + Flatten(rounds[..done]) + rounds[done][..taken]
      ensures ok && 0 < done ==>
                && old(clock) <= began <= clock
                && forall k | 0 <= k < |pendingResend| :: began < pendingResend[k].since + 400
    {
      done, taken, began := 0, 0, clock;
      for i := 0 to |rounds|
        invariant Valid() && drained == old(drained) + Flatten(rounds[..i])
        invariant old(clock) <= began <= clock
        invariant 0 < i ==> forall k | 0 <= k < |pendingResend| :: began < pendingResend[k].since + 400
      {
        done := i;
        var stopped := *;               // the stop signal, or the socket's end
        if stopped {
          return true, i, 0, began;
        }
        began := clock;
        ok, taken := Round(rounds[i]);
        if !ok {
          return;
        }
        MoreRounds(rounds, i, old(drained));
      }
      return true, |rounds|, 0, began;
    }
  }

  lemma MoreRounds<M>(rounds: seq<seq<M>>, i: nat, before: seq<M>)
    requires i < |rounds|
    ensures rounds[i][..|rounds[i]|] == rounds[i]
    ensures before + Flatten(rounds[..i]) + rounds[i] == before + Flatten(rounds[..i + 1])
  {
    FlattenPush(rounds[..i], rounds[i]);
    assert rounds[..i + 1] == rounds[..i] + [rounds[i]];
    Reassociate(before, Flatten(rounds[..i]), rounds[i]);
  }

  // The entries once pending are those still pending and those sent again, and also those looked at
  // and those from position i on.
  ghost predicate Accounts<M(!new)>(original: seq<Entry<M>>, pending: seq<Entry<M>>, i: nat,
                                    resent: seq<Entry<M>>, visited: seq<Entry<M>>)
  {
    && i <= |pending|
    && (forall entry :: Count(original, entry) == Count(pending, entry) + Count(resent, entry))
    && (forall entry :: Count(original, entry) == Count(visited, entry) + Count(pending[i..], entry))
  }

  lemma AccountsDue<M(!new)>(original: seq<Entry<M>>, pending: seq<Entry<M>>, i: nat,
                             resent: seq<Entry<M>>, visited: seq<Entry<M>>)
    requires i < |pending| && Accounts(original, pending, i, resent, visited)
    ensures Accounts(original, SwapRemove(pending, i), i, resent + [pending[i]], visited + [pending[i]])
  {
    SwapRemoveCount(pending, i, 0);
    SwapRemoveCount(pending, i, i);
    assert pending[0..] == pending && SwapRemove(pending, i)[0..] == SwapRemove(pending, i);
    CountPush(visited, pending[i]);
    CountPush(resent, pending[i]);
  }

  lemma AccountsKept<M(!new)>(original: seq<Entry<M>>, pending: seq<Entry<M>>, i: nat,
                              resent: seq<Entry<M>>, visited: seq<Entry<M>>)
    requires i < |pending| && Accounts(original, pending, i, resent, visited)
    ensures Accounts(original, pending, i + 1, resent, visited + [pending[i]])
  {
    CountPush(visited, pending[i]);
    CountConcat([pending[i]], pending[i + 1..]);
    assert pending[i..] == [pending[i]] + pending[i + 1..] && [pending[i]] == [] + [pending[i]];
    CountPush([], pending[i]);
  }

  // ---------------------------------------------------------------------------------------
  // Inbound candidates before the answer
  // ---------------------------------------------------------------------------------------

  datatype RemoteIce = RemoteIce(sessionKey: string, candidate: string)

  predicate Expected(ice: RemoteIce, sessionKey: string) {
    sessionKey != "" && ice.sessionKey == sessionKey && ice.candidate != ""
  }

  // The candidates of this session, in order of arrival.
  function Candidates(messages: seq<RemoteIce>, sessionKey: string): seq<string> {
    if messages == [] then [] else
    var last := messages[|messages| - 1];
    Candidates(messages[..|messages| - 1], sessionKey) + if Expected(last, sessionKey) then [last.candidate] else []
  }

  /** Exactly the candidates of this session count, an empty key or candidate never does. */
  lemma CandidatesOfSession(messages: seq<RemoteIce>, sessionKey: string, key: string, candidate: string)
    ensures Candidates([], sessionKey) == []
    ensures sessionKey != "" && key == sessionKey && candidate != "" ==>
              Candidates(messages + [RemoteIce(key, candidate)], sessionKey)
              == Candidates(messages, sessionKey) + [candidate]
    ensures sessionKey == "" || key != sessionKey || candidate == "" ==>
              Candidates(messages + [RemoteIce(key, candidate)], sessionKey) == Candidates(messages, sessionKey)
  {
    assert (messages + [RemoteIce(key, candidate)])[..|messages|] == messages;
  }

  /** On overflow the oldest go: the buffer holds the newest 64 candidates of this session. */
  method BufferCandidates(messages: seq<RemoteIce>, sessionKey: string) returns (pending: seq<string>)
    ensures pending == LastN(Candidates(messages, sessionKey), 64)
  {
    pending := [];
    for i := 0 to |messages|
      invariant pending == LastN(Candidates(messages[..i], sessionKey), MAX_PENDING_WEBRTC_ICE)
    {
      assert messages[..i + 1][..i] == messages[..i];
      if Expected(messages[i], sessionKey) {
        if |pending| >= MAX_PENDING_WEBRTC_ICE {
          pending := pending[1..];
        }
        pending := pending + [messages[i].candidate];
      }
    }
    assert messages[..|messages|] == messages;
  }
}
