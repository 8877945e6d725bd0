/**
 Who closes the WebRTC offerer's peer connection: `OffererGuard` of src/client.rs and the paths
 of `_start_inner` and `connect` that adopt it, hand it over, or lose it.

 A guard is modelled by the peer connection it is armed with, or `null` once disarmed. The
 outcome of every await is nondeterministic, and at every await the future may be cancelled;
 leaving a scope, however it happens, drops the guards the scope still owns.
 */
module OffererOwnership {

  class PeerConnection {
    var closes: nat

    constructor ()
      ensures closes == 0
    {
      closes := 0;
    }

    method CloseDetached()
      modifies this
      ensures closes == old(closes) + 1
    {
      closes := closes + 1;
    }
  }

  datatype Transport = TCP | UDP | IPv6 | WebRTC | Relay | WebSocket

  datatype Attempt = Failure | Success(typ: Transport, direct: bool)

  // How a future ends: dropped at an await, with an error, or with a connection.
  datatype Exit = Cancelled | Bailed | Returned(typ: Transport, direct: bool)

  datatype Message =
    | PunchHoleResponse(refused: bool, answered: bool)
    | RelayResponse(answered: bool)
    | IceCandidate
    | Unexpected

  // `Drop for OffererGuard`.
  method DropGuard(guard: PeerConnection?)
    modifies guard
    ensures guard != null ==> guard.closes == old(guard.closes) + 1
  {
    if guard != null {
      guard.CloseDetached();
    }
  }

  // Exactly one of these holds for an offer at any time: its guard is still armed and it is
  // open, or it has been closed once.
  ghost predicate Owned(offer: PeerConnection?, guard: PeerConnection?)
    reads offer
  {
    if guard == null then offer != null ==> offer.closes == 1
    else guard == offer && offer.closes == 0
  }

  predicate Relays(typ: Transport) {
    typ == Relay || typ == WebSocket
  }

  // What every way out of a future owes the offer it was given.
  ghost predicate Settled(offer: PeerConnection?, exit: Exit)
    reads offer
  {
    && (offer != null ==> offer.closes == if exit.Returned? && exit.typ == WebRTC then 0 else 1)
    && (exit.Returned? && Relays(exit.typ) ==> !exit.direct)
    && (exit.Returned? && exit.typ == WebRTC ==> offer != null)
  }

  // The outcome of a race between these transports; only WebRTC finds out late how direct it is.
  method RaceOutcome(candidates: set<Transport>) returns (attempt: Attempt)
    ensures attempt.Success? ==> attempt.typ in candidates && (Relays(attempt.typ) ==> !attempt.direct)
  {
    var failed := *;
    if failed || candidates == {} {
      return Failure;
    }
    var typ :| typ in candidates;
    var relayed := *;
    attempt := Success(typ, if typ == WebRTC then !relayed else !Relays(typ));
  }

  // Set up the answered offer on its guard's stream; on success the bare stream is handed over.
  method Adopt(guard: PeerConnection) returns (cancelled: bool, webrtcForConnect: PeerConnection?)
    requires guard.closes == 0
    modifies guard
    ensures if webrtcForConnect != null then webrtcForConnect == guard && !cancelled && guard.closes == 0
            else guard.closes == 1
  {
    cancelled, webrtcForConnect := false, null;
    var armed: PeerConnection? := guard;
    label setup: {
      if * { cancelled := true; break setup; }          // set_remote_endpoint().await
      var accepted := *;
      if accepted {
        var candidates: nat := *;
        while candidates > 0
          invariant armed == guard && guard.closes == 0 && !cancelled
        {
          if * { cancelled := true; break setup; }      // add_remote_ice_candidate().await
          candidates := candidates - 1;
        }
        webrtcForConnect, armed := armed, null;         // into_inner
      }
    }
    DropGuard(armed);
  }

  /** The branch of `_start_inner` that answers a `RelayResponse`. */
  method StartRelayed(offer: PeerConnection?, offererGuard: PeerConnection?, answered: bool, useWs: bool)
    returns (exit: Exit)
    requires Owned(offer, offererGuard)
    modifies offer
    ensures Settled(offer, exit)
  {
    var webrtcOfferer := offererGuard;
    var webrtcGuard: PeerConnection? := null;
    label scope: {
      if * { exit := Cancelled; break scope; }          // IPv6 connect().await
      var webrtcForConnect: PeerConnection? := null;
      if answered && webrtcOfferer != null {
        var guard := webrtcOfferer;
        webrtcOfferer := null;
        var cancelled;
        cancelled, webrtcForConnect := Adopt(guard);
        if cancelled { exit := Cancelled; break scope; }
      }
      DropGuard(webrtcOfferer);
      webrtcOfferer := null;
      webrtcGuard := webrtcForConnect;                  // OffererGuard::new(webrtc.clone())
      if * { exit := Cancelled; break scope; }          // the race
      var raced := RaceOutcome({IPv6, if useWs then WebSocket else Relay} +
                               if webrtcForConnect != null then {WebRTC} else {});
      if raced.Failure? { exit := Bailed; break scope; }
      var typ, direct := raced.typ, raced.direct;
      if * { exit := Cancelled; break scope; }          // secure_connection
      var secured := *;
      if !secured {
        if typ != WebRTC { exit := Bailed; break scope; }
        DropGuard(webrtcGuard);
        webrtcGuard := null;
        if * { exit := Cancelled; break scope; }        // request_relay
        if * { exit := Bailed; break scope; }
        if * { exit := Cancelled; break scope; }        // secure_connection on the relay
        if * { exit := Bailed; break scope; }
        typ, direct := if useWs then WebSocket else Relay, false;
      }
      if typ == WebRTC {
        webrtcGuard := null;                            // into_inner
      }
      exit := Returned(typ, direct);
    }
    DropGuard(webrtcGuard);
    DropGuard(webrtcOfferer);
  }

  /** `connect`: races the punch attempts, overrides with the relay, secures the result. */
  method Connect(webrtcOfferer: PeerConnection?, forceRelay: bool, relayServer: bool) returns (exit: Exit)
    requires webrtcOfferer != null ==> webrtcOfferer.closes == 0
    modifies webrtcOfferer
    ensures Settled(webrtcOfferer, exit)
  {
    var webrtcGuard := webrtcOfferer;                   // OffererGuard::new
    label scope: {
      if * { exit := Cancelled; break scope; }          // get_nat_type().await, then the race
      var raced := RaceOutcome({TCP, UDP, IPv6} + if webrtcGuard != null then {WebRTC} else {});
      var typ, direct := if raced.Success? then raced.typ else TCP, raced.Success? && raced.direct;
      if (forceRelay && !(raced.Success? && typ == WebRTC)) || raced.Failure? {
        if !relayServer { exit := Bailed; break scope; }
        if * { exit := Cancelled; break scope; }        // request_relay
        if * { exit := Bailed; break scope; }
        typ, direct := Relay, false;
      }
      if * { exit := Cancelled; break scope; }          // secure_connection
      var secured := *;
      if !secured {
        if typ != WebRTC || !relayServer { exit := Bailed; break scope; }
        DropGuard(webrtcGuard);
        webrtcGuard := null;
        if * { exit := Cancelled; break scope; }        // request_relay
        if * { exit := Bailed; break scope; }
        if * { exit := Cancelled; break scope; }        // secure_connection on the relay
        if * { exit := Bailed; break scope; }
        typ, direct := Relay, false;
      }
      if typ == WebRTC {
        if * { exit := Cancelled; break scope; }        // webrtc_relayed().await
        var relayed := *;
        direct := direct && !relayed;
        webrtcGuard := null;                            // into_inner
      }
      exit := Returned(typ, direct);
    }
    DropGuard(webrtcGuard);
  }

  /** `_start_inner`: an offer is closed exactly once unless the returned transport is WebRTC,
      in which case it stays open; a returned relay is never reported as direct. */
  method StartInner(offer: PeerConnection?, forceRelay: bool, useWs: bool) returns (exit: Exit)
    requires offer != null ==> offer.closes == 0
    modifies offer
    ensures Settled(offer, exit)
    ensures offer != null && exit.Returned? && exit.typ == WebRTC ==> offer.closes == 0
    ensures offer != null && !(exit.Returned? && exit.typ == WebRTC) ==> offer.closes == 1
    ensures exit.Returned? && (exit.typ == Relay || exit.typ == WebSocket) ==> !exit.direct
  {
    var webrtcOfferer := offer;                         // webrtc_offerer.map(OffererGuard::new)
    label scope: {
      if * { exit := Cancelled; break scope; }          // connect_tcp, get_nat_type
      if * { exit := Bailed; break scope; }
      if webrtcOfferer != null {
        if * { exit := Cancelled; break scope; }        // secure_tcp_required
        var exchanged := *;
        if !exchanged {
          DropGuard(webrtcOfferer);
          webrtcOfferer := null;
          if * { exit := Cancelled; break scope; }      // connect_tcp on a fresh socket
          if * { exit := Bailed; break scope; }
        }
      }
      if * { exit := Cancelled; break scope; }          // secure_tcp, the UDP NAT test
      if * { exit := Bailed; break scope; }
      var answered, punched := false, false;
      var i := 1;
      while i <= 3 && !punched
        invariant Owned(offer, webrtcOfferer)
        decreases 4 - i
      {
        if * { exit := Cancelled; break scope; }        // socket.send
        if * { exit := Bailed; break scope; }
        var polls: nat := *;                            // messages before this attempt's deadline
        while polls > 0 && !punched
          invariant Owned(offer, webrtcOfferer)
          decreases polls
        {
          polls := polls - 1;
          if * { exit := Cancelled; break scope; }      // get_next_nonkeyexchange_msg
          var message: Message := *;
          match message {
            case PunchHoleResponse(refused, withAnswer) =>
              if refused { exit := Bailed; break scope; }
              if * { exit := Cancelled; break scope; }  // connecting the UDP sockets
              answered, punched := withAnswer, true;
            case RelayResponse(withAnswer) =>
              var guard := webrtcOfferer;
              webrtcOfferer := null;
              exit := StartRelayed(offer, guard, withAnswer, useWs);
              return;
            case IceCandidate =>
            case Unexpected =>
          }
        }
        i := i + 1;
      }
      var webrtcForConnect: PeerConnection? := null;
      if answered && webrtcOfferer != null {
        var guard := webrtcOfferer;
        webrtcOfferer := null;
        var cancelled;
        cancelled, webrtcForConnect := Adopt(guard);
        if cancelled { exit := Cancelled; break scope; }
      }
      DropGuard(webrtcOfferer);
      webrtcOfferer := null;
      var peerKnown := *;                               // peer_addr.port() != 0
      if !peerKnown {
        DropGuard(webrtcForConnect);                    // explicit close_detached
        exit := Bailed;
        break scope;
      }
      var relayServer := *;
      exit := Connect(webrtcForConnect, forceRelay, relayServer);
    }
    DropGuard(webrtcOfferer);
  }
}
