/** The Bridge class of st_orin_gnc_bridge.py: its two sockets (ST, the
    image source, and Jet, the Jetson that processes images), the cache of
    the latest GNC position and attitude, the framed send and receive, and
    the relay loop of full_bridge_mode with its fault recovery.

    The loop is an endless `while True` in the program; here it runs for a
    given number of cycles against a script of reconnections, one consumed
    per fault. The payload codec (pickle and the dictionary lookups around
    it) is a parameter of the relay. */
module GncBridge {
  import opened Wire
  import opened Transport
  import opened Framing

  /** A position or attitude estimate; its numbers are only carried. */
  type Vector = seq<real>

  const DefaultPosition: Vector := [0.0, 0.0, 0.0]
  const DefaultAttitude: Vector := [0.0, 0.0, 0.0, 1.0]

  /** The response is read with a single jet_socket.recv(4096). */
  const ResponseLimit: nat := 4096

  /** The record sent to the Jetson: camera0, ekf_position, ekf_attitude. */
  datatype Record = Record(camera0: seq<byte>, ekfPosition: Vector, ekfAttitude: Vector)

  /** The fields the bridge looks up in the Jetson's response. */
  datatype Response = Response(relPosition: Vector, relAttitude: Vector, bbCentre: Vector)

  /** The reply survives the relative-pose print, which indexes three
      position entries and four attitude entries. */
  predicate PrintableReply(reply: Response)
  {
    |reply.relPosition| >= 3 && |reply.relAttitude| >= 4
  }

  /** The payload codec; None stands for an exception it raises. pickle.loads
      of an empty body raises EOFError, so loadImage([]) and loadResponse([])
      are never consulted: the relay raises on an empty body itself.
      Entries of a reply that are not numbers (a TypeError of the print's
      formatting) are a failure of loadResponse too. */
  datatype Codec = Codec(
    loadImage: seq<byte> -> Option<seq<byte>>,       // pickle.loads(data)['camera0'], then cv2.imwrite of it
    dumpRecord: Record -> seq<byte>,                  // pickle.dumps(record)
    loadResponse: seq<byte> -> Option<Response>)      // pickle.loads(response) and its lookups

  /** How one pass of the relay loop ends: the whole cycle ran, or an
      exception was raised that the loop catches (a fault, followed by
      reconnection), or one it does not catch (the loop ends). */
  datatype Outcome =
    | Completed(record: Record, response: Response)
    | Faulted(error: Error)
    | Crashed(error: Error)

  /** The exceptions named by `except (socket.error, OSError, RuntimeError)`. */
  predicate Caught(e: Error)
  {
    e == ShortHeader || e == ClosedPrematurely || e == SocketError
  }

  function Raise(e: Error): Outcome
  {
    if Caught(e) then Faulted(e) else Crashed(e)
  }

  /** The socket actions of the bridge, in the order they happen. */
  datatype Event = CloseSt | CloseJet | ConnectSt | ConnectJet

  /** What the environment does during one recovery: whether each close
      raises, the outcomes of the successive connect attempts to each peer,
      and the peer reached when an attempt succeeds. */
  datatype Reconnection = Reconnection(
    stCloseFails: bool, jetCloseFails: bool,
    jetAttempts: seq<bool>, jetPeer: Peer,
    stAttempts: seq<bool>, stPeer: Peer)

  /** The fields of a Bridge object, as a value. */
  datatype BridgeState = BridgeState(st: Socket, jet: Socket, position: Vector, attitude: Vector, events: seq<Event>)

  // ------------------------------------------------------ connection retry

  /** The index of the first successful connect attempt; None when the
      script holds none, where the program would go on retrying forever. */
  function FirstSuccess(attempts: seq<bool>): (r: Option<nat>)
    ensures r.Some? ==> r.value < |attempts| && attempts[r.value]
                        && forall j :: 0 <= j < r.value ==> !attempts[j]
    ensures r.None? ==> forall j :: 0 <= j < |attempts| ==> !attempts[j]
  {
    if attempts == [] then None
    else if attempts[0] then Some(0)
    else
      match FirstSuccess(attempts[1..])
      case None => None
      case Some(k) => Some(k + 1)
  }

  /** The retry loop of connect_socket_to_st / connect_socket_to_jet: try,
      and on an exception try again, until an attempt succeeds. */
  method RetryConnect(attempts: seq<bool>) returns (r: Option<nat>)
    ensures r == FirstSuccess(attempts)
  {
    var i := 0;
    while i < |attempts|
      invariant i <= |attempts|
      invariant forall j :: 0 <= j < i ==> !attempts[j]
    {
      if attempts[i] {
        return Some(i);
      }
      i := i + 1;
    }
    return None;
  }

  // ------------------------------------------------------- the relay cycle

  /** receive_in_chunks on a socket attribute (before unpickling). An
      unset attribute raises AttributeError, the one error here the loop's
      except clause does not name. */
  function ReceiveOn(sock: Socket): (r: (Result<seq<byte>>, Socket))
    ensures sock.Closed? ==> r == (Err(SocketError), sock)
    ensures sock.Unset? ==> r == (Err(NoSocket), sock)
    ensures sock.Connected? ==> r.1.Connected? && r.1.peer.outbound == sock.peer.outbound
                                && (r.0, r.1.peer.inbound) == Receive(sock.peer.inbound)
    ensures r.0.Err? ==> (Caught(r.0.error) <==> !sock.Unset?)
  {
    match sock
    case Closed => (Err(SocketError), sock)
    case Unset => (Err(NoSocket), sock)
    case Connected(peer) =>
      var got := Receive(peer.inbound);
      ReceiveSpec(peer.inbound);
      (got.0, Connected(peer.(inbound := got.1)))
  }

  /** The Jet half of a pass: send the record with send_in_chunks, then read
      the response with one recv(4096) and decode it. */
  function Forward(s: BridgeState, record: Record, codec: Codec): (r: (Outcome, BridgeState))
    ensures r.1 == s.(jet := r.1.jet)
    ensures r.0.Faulted? ==> Caught(r.0.error)
    ensures r.0.Crashed? ==> !Caught(r.0.error)
    ensures r.0.Completed? ==> r.0.record == record && PrintableReply(r.0.response)
  {
    var sent := Send(s.jet, codec.dumpRecord(record), SendChunkSize);
    if sent.0.Err? then (Raise(sent.0.error), s.(jet := sent.1))
    else
      var jet1 := sent.1;
      var response := Recv(jet1.peer.inbound, ResponseLimit);
      var s3 := s.(jet := Connected(jet1.peer.(inbound := response.1)));
      if response.0 == [] then (Crashed(CodecError), s3)   // pickle.loads(b"") raises EOFError
      else
        match codec.loadResponse(response.0)
        case None => (Crashed(CodecError), s3)
        case Some(reply) =>
          if !PrintableReply(reply) then (Crashed(ReplyFormat), s3)   // IndexError at line 144
          else (Completed(record, reply), s3)
  }

  /** One pass of the body of full_bridge_mode's loop, up to the increment
      of image_number. */
  function Relay(s: BridgeState, codec: Codec): (r: (Outcome, BridgeState))
    ensures r.1.position == s.position && r.1.attitude == s.attitude && r.1.events == s.events
    ensures r.0.Faulted? ==> Caught(r.0.error)
    ensures r.0.Crashed? ==> !Caught(r.0.error)
    ensures r.0.Completed? ==> r.0.record.ekfPosition == s.position && r.0.record.ekfAttitude == s.attitude
                               && PrintableReply(r.0.response)
    ensures ReceiveOn(s.st).0.Err? ==> r.0 == Raise(ReceiveOn(s.st).0.error) && r.1.jet == s.jet
    ensures s.st.Unset? ==> r == (Crashed(NoSocket), s)
  {
    var received := ReceiveOn(s.st);
    var s1 := s.(st := received.1);
    if received.0.Err? then (Raise(received.0.error), s1)
    else if received.0.value == [] then (Crashed(CodecError), s1)   // pickle.loads(b"") raises EOFError
    else
      match codec.loadImage(received.0.value)
      case None => (Crashed(CodecError), s1)
      case Some(image) => Forward(s1, Record(image, s.position, s.attitude), codec)
  }

  /** A successful receive took exactly one frame off the stream: a header
      holding the body's length, then the body. */
  lemma ReceivedFrame(sock: Socket)
    requires ReceiveOn(sock).0.Ok?
    ensures var (got, after) := ReceiveOn(sock);
            && sock.Connected? && after.Connected?
            && var rest := after.peer.inbound.pending;
               && |got.value| < U32Bound
               && sock.peer.inbound.pending == PackU32(|got.value|).value + got.value + rest
  {
    ReceiveTakesFrame(sock.peer.inbound);
  }

  /** A completed Jet half handed the peer exactly the frame of the record
      and read a response of 1 to 4096 bytes. */
  lemma CompletedForward(s: BridgeState, record: Record, codec: Codec)
    requires Forward(s, record, codec).0.Completed?
    ensures var t := Forward(s, record, codec).1;
            var bytes := codec.dumpRecord(record);
            && s.jet.Connected? && t.jet.Connected? && |bytes| < U32Bound
            && t.jet.peer.outbound.writes == s.jet.peer.outbound.writes + FrameWrites(bytes, SendChunkSize)
            && 0 < |s.jet.peer.inbound.pending| - |t.jet.peer.inbound.pending| <= ResponseLimit
  {
    var sent := Send(s.jet, codec.dumpRecord(record), SendChunkSize);
    assert sent.0.Ok?;
  }

  /** A completed cycle took exactly one frame off the ST stream, whose body
      the codec decoded to the image sent on; it handed the Jet peer exactly
      one frame holding the record, built from the current cache; and it
      read one response of at most 4096 bytes. */
  lemma CompletedRelay(s: BridgeState, codec: Codec)
    requires Relay(s, codec).0.Completed?
    ensures var (out, t) := Relay(s, codec);
            && s.st.Connected? && t.st.Connected?
            && var body := ReceiveOn(s.st).0.value;
               && 0 < |body| < U32Bound
               && s.st.peer.inbound.pending == PackU32(|body|).value + body + t.st.peer.inbound.pending
               && codec.loadImage(body) == Some(out.record.camera0)
    ensures var (out, t) := Relay(s, codec);
            && out.record == Record(out.record.camera0, s.position, s.attitude)
            && var bytes := codec.dumpRecord(out.record);
               && s.jet.Connected? && t.jet.Connected? && |bytes| < U32Bound
               && t.jet.peer.outbound.writes == s.jet.peer.outbound.writes + FrameWrites(bytes, SendChunkSize)
               && 0 < |s.jet.peer.inbound.pending| - |t.jet.peer.inbound.pending| <= ResponseLimit
  {
    var received := ReceiveOn(s.st);
    assert received.0.Ok?;
    ReceivedFrame(s.st);
    var record := Record(codec.loadImage(received.0.value).value, s.position, s.attitude);
    var s1 := s.(st := received.1);
    assert Relay(s, codec) == Forward(s1, record, codec);
    CompletedForward(s1, record, codec);
  }

  // --------------------------------------------------------- fault recovery

  /** close() on a socket attribute: a socket is closed even when close
      raises; on an unset attribute it raises AttributeError and the
      attribute stays unset. */
  function AfterClose(sock: Socket): (r: Socket)
    ensures !r.Connected? && (r.Unset? <==> sock.Unset?)
  {
    if sock.Unset? then Unset else Closed
  }

  /** The except branch of full_bridge_mode: close the ST socket, close the
      Jet socket (an exception from either close is ignored), then reconnect
      Jet and after it ST. The boolean is false when a reconnection never
      succeeds, where the program blocks forever in the retry loop. */
  function Reconnect(s: BridgeState, rc: Reconnection): (r: (bool, BridgeState))
    ensures r.0 <==> FirstSuccess(rc.jetAttempts).Some? && FirstSuccess(rc.stAttempts).Some?
    ensures r.0 ==> r.1 == s.(st := Connected(rc.stPeer), jet := Connected(rc.jetPeer),
                              events := s.events + [CloseSt, CloseJet, ConnectJet, ConnectSt])
    ensures !r.0 ==> !r.1.st.Connected?
    ensures r.1.position == s.position && r.1.attitude == s.attitude
  {
    var closed := s.(st := AfterClose(s.st), jet := AfterClose(s.jet), events := s.events + [CloseSt, CloseJet]);
    if FirstSuccess(rc.jetAttempts).None? then (false, closed.(jet := Closed))
    else
      var jetUp := closed.(jet := Connected(rc.jetPeer), events := closed.events + [ConnectJet]);
      if FirstSuccess(rc.stAttempts).None? then (false, jetUp.(st := Closed))
      else (true, jetUp.(st := Connected(rc.stPeer), events := jetUp.events + [ConnectSt]))
  }

  const FullRecovery: seq<Event> := [CloseSt, CloseJet, ConnectJet, ConnectSt]

  /** The socket actions of a series of recoveries: whole recoveries, the
      last of which may stop after closing both sockets or after connecting
      Jet (a peer that never comes back). */
  predicate RecoveryLog(e: seq<Event>)
    decreases |e|
  {
    || e == []
    || e == [CloseSt, CloseJet]
    || e == [CloseSt, CloseJet, ConnectJet]
    || (|e| >= 4 && e[..4] == FullRecovery && RecoveryLog(e[4..]))
  }

  /** In every recovery both sockets are closed before any reconnection, and
      Jet is reconnected before ST. */
  lemma {:induction false} RecoveryOrder(e: seq<Event>)
    requires RecoveryLog(e)
    ensures forall i :: 0 <= i < |e| && e[i] == ConnectJet ==> 2 <= i && e[i - 2] == CloseSt && e[i - 1] == CloseJet
    ensures forall i :: 0 <= i < |e| && e[i] == ConnectSt ==> 3 <= i && e[i - 1] == ConnectJet
    decreases |e|
  {
    if |e| >= 4 && e[..4] == FullRecovery && RecoveryLog(e[4..]) {
      RecoveryOrder(e[4..]);
      forall i | 4 <= i < |e|
        ensures e[i] == e[4..][i - 4]
      {
      }
      assert e[0] == CloseSt && e[1] == CloseJet && e[2] == ConnectJet && e[3] == ConnectSt;
    }
  }

  lemma RecoveryLogAfterReconnect(s: BridgeState, rc: Reconnection)
    ensures var t := Reconnect(s, rc).1;
            |s.events| <= |t.events| && t.events[..|s.events|] == s.events
            && RecoveryLog(t.events[|s.events|..])
            && (Reconnect(s, rc).0 ==> t.events[|s.events|..] == FullRecovery)
  {
    var t := Reconnect(s, rc).1;
    var added := t.events[|s.events|..];
    if FirstSuccess(rc.jetAttempts).None? {
      assert added == [CloseSt, CloseJet];
    } else if FirstSuccess(rc.stAttempts).None? {
      assert added == [CloseSt, CloseJet, ConnectJet];
    } else {
      assert added == FullRecovery;
      assert added[..4] == FullRecovery && added[4..] == [];
    }
  }

  /** How many times the action x occurs in e. */
  function Occurrences(e: seq<Event>, x: Event): nat
  {
    if e == [] then 0 else Occurrences(e[..|e| - 1], x) + (if e[|e| - 1] == x then 1 else 0)
  }

  lemma OccurrencesSnoc(e: seq<Event>, y: Event, x: Event)
    ensures Occurrences(e + [y], x) == Occurrences(e, x) + (if y == x then 1 else 0)
  {
    assert (e + [y])[..|e|] == e;
  }

  /** Every recovery closes the ST socket once, and reopens it once exactly
      when both peers come back. */
  lemma RecoveryCounts(s: BridgeState, rc: Reconnection)
    ensures var r := Reconnect(s, rc);
            && Occurrences(r.1.events, CloseSt) == Occurrences(s.events, CloseSt) + 1
            && Occurrences(r.1.events, ConnectSt) == Occurrences(s.events, ConnectSt) + (if r.0 then 1 else 0)
  {
    var e1, e2 := s.events + [CloseSt], s.events + [CloseSt] + [CloseJet];
    assert e2 == s.events + [CloseSt, CloseJet];
    OccurrencesSnoc(s.events, CloseSt, CloseSt);
    OccurrencesSnoc(s.events, CloseSt, ConnectSt);
    OccurrencesSnoc(e1, CloseJet, CloseSt);
    OccurrencesSnoc(e1, CloseJet, ConnectSt);
    OccurrencesSnoc(e2, ConnectJet, CloseSt);
    OccurrencesSnoc(e2, ConnectJet, ConnectSt);
    OccurrencesSnoc(e2 + [ConnectJet], ConnectSt, CloseSt);
    OccurrencesSnoc(e2 + [ConnectJet], ConnectSt, ConnectSt);
    assert e2 + [ConnectJet] + [ConnectSt] == s.events + [CloseSt, CloseJet, ConnectJet, ConnectSt];
  }

  // ------------------------------------------------------------- the loop

  /** Why a run ends: the cycles allowed ran out, a fault came after the
      reconnection script ran out, an uncaught exception escaped, or a peer
      never came back. */
  datatype Stop = OutOfCycles | OutOfScript | Crash(error: Error) | Blocked

  datatype RunResult = RunResult(imageNumber: nat, stop: Stop, state: BridgeState, outcomes: seq<Outcome>)

  /** One pass of the relay as a function of the bridge's fields. */
  type Pass = BridgeState -> (Outcome, BridgeState)

  /** `relay` is the pass the bridge runs: Relay with the codec `codec`. */
  ghost predicate RelaysWith(relay: Pass, codec: Codec)
  {
    forall t {:trigger Relay(t, codec)} :: relay(t) == Relay(t, codec)
  }

  /** full_bridge_mode for at most `fuel` passes of its loop, `relay` being
      the body up to the increment of image_number, with image_number and
      the outcomes so far in the accumulators. It makes at most `fuel` passes,
      each adding one outcome. */
  function RunLoop(s: BridgeState, fuel: nat, script: seq<Reconnection>, relay: Pass,
                   imageNumber: nat, outcomes: seq<Outcome>): (r: RunResult)
    ensures |outcomes| <= |r.outcomes| <= |outcomes| + fuel
    decreases fuel
  {
    if fuel == 0 then RunResult(imageNumber, OutOfCycles, s, outcomes)
    else
      var c, s1 := relay(s).0, relay(s).1;
      var os := outcomes + [c];
      match c
      case Completed(_, _) => RunLoop(s1, fuel - 1, script, relay, imageNumber + 1, os)
      case Crashed(e) => RunResult(imageNumber, Crash(e), s1, os)
      case Faulted(_) =>
        if script == [] then RunResult(imageNumber, OutOfScript, s1, os)
        else
          var back := Reconnect(s1, script[0]);
          if back.0 then RunLoop(back.1, fuel - 1, script[1..], relay, imageNumber, os)
          else RunResult(imageNumber, Blocked, back.1, os)
  }

  function Completions(os: seq<Outcome>): nat
  {
    if os == [] then 0 else (if os[0].Completed? then 1 else 0) + Completions(os[1..])
  }

  lemma {:induction false} CompletionsAppend(os: seq<Outcome>, c: Outcome)
    ensures Completions(os + [c]) == Completions(os) + (if c.Completed? then 1 else 0)
    decreases |os|
  {
    if os == [] {
      assert [c][1..] == [];
    } else {
      assert (os + [c])[0] == os[0] && (os + [c])[1..] == os[1..] + [c];
      CompletionsAppend(os[1..], c);
    }
  }

  function Faults(os: seq<Outcome>): nat
  {
    if os == [] then 0 else (if os[0].Faulted? then 1 else 0) + Faults(os[1..])
  }

  lemma {:induction false} FaultsAppend(os: seq<Outcome>, c: Outcome)
    ensures Faults(os + [c]) == Faults(os) + (if c.Faulted? then 1 else 0)
    decreases |os|
  {
    if os == [] {
      assert [c][1..] == [];
    } else {
      assert (os + [c])[0] == os[0] && (os + [c])[1..] == os[1..] + [c];
      FaultsAppend(os[1..], c);
    }
  }

  /** image_number counts exactly the cycles that completed, and every pass
      of the loop adds one outcome. */
  lemma {:induction false} RunLoopCounts(s: BridgeState, fuel: nat, script: seq<Reconnection>, relay: Pass,
                                         imageNumber: nat, outcomes: seq<Outcome>)
    ensures var r := RunLoop(s, fuel, script, relay, imageNumber, outcomes);
            && |outcomes| + (if fuel == 0 then 0 else 1) <= |r.outcomes| <= |outcomes| + fuel
            && r.outcomes[..|outcomes|] == outcomes
            && r.imageNumber - imageNumber == Completions(r.outcomes) - Completions(outcomes)
    decreases fuel
  {
    if fuel > 0 {
      var r := RunLoop(s, fuel, script, relay, imageNumber, outcomes);
      var c, s1 := relay(s).0, relay(s).1;
      CompletionsAppend(outcomes, c);
      var grown := outcomes + [c];
      assert grown[..|outcomes|] == outcomes;
      if c.Completed? {
        RunLoopCounts(s1, fuel - 1, script, relay, imageNumber + 1, grown);
        assert r.outcomes[..|outcomes|] == r.outcomes[..|grown|][..|outcomes|];
      } else if c.Faulted? && script != [] {
        var back := Reconnect(s1, script[0]);
        if back.0 {
          RunLoopCounts(back.1, fuel - 1, script[1..], relay, imageNumber, grown);
          assert r.outcomes[..|outcomes|] == r.outcomes[..|grown|][..|outcomes|];
        }
      }
    }
  }

  /** A pass that leaves the cache alone and lets only uncaught exceptions
      crash keeps the cache over the whole loop, which crashes only on an
      uncaught exception. */
  lemma {:induction false} RunLoopKeepsCache(s: BridgeState, fuel: nat, script: seq<Reconnection>, relay: Pass,
                                             imageNumber: nat, outcomes: seq<Outcome>)
    requires forall t :: relay(t).1.position == t.position && relay(t).1.attitude == t.attitude
    requires forall t :: relay(t).0.Crashed? ==> !Caught(relay(t).0.error)
    ensures var r := RunLoop(s, fuel, script, relay, imageNumber, outcomes);
            && r.state.position == s.position && r.state.attitude == s.attitude
            && (r.stop.Crash? ==> !Caught(r.stop.error))
    decreases fuel
  {
    if fuel > 0 {
      var c, s1 := relay(s).0, relay(s).1;
      if c.Completed? {
        RunLoopKeepsCache(s1, fuel - 1, script, relay, imageNumber + 1, outcomes + [c]);
      } else if c.Faulted? && script != [] {
        var back := Reconnect(s1, script[0]);
        if back.0 {
          RunLoopKeepsCache(back.1, fuel - 1, script[1..], relay, imageNumber, outcomes + [c]);
        }
      }
    }
  }

  /** When a pass performs no socket action of its own, the loop's socket
      actions are a series of recoveries. */
  lemma {:induction false} RunLoopEvents(s: BridgeState, fuel: nat, script: seq<Reconnection>, relay: Pass,
                                         imageNumber: nat, outcomes: seq<Outcome>)
    requires forall t :: relay(t).1.events == t.events
    ensures var r := RunLoop(s, fuel, script, relay, imageNumber, outcomes);
            && |s.events| <= |r.state.events| && r.state.events[..|s.events|] == s.events
            && RecoveryLog(r.state.events[|s.events|..])
    decreases fuel
  {
    var r := RunLoop(s, fuel, script, relay, imageNumber, outcomes);
    if fuel == 0 {
      assert r.state.events[|s.events|..] == [];
    } else {
      var c, s1 := relay(s).0, relay(s).1;
      if c.Completed? {
        RunLoopEvents(s1, fuel - 1, script, relay, imageNumber + 1, outcomes + [c]);
      } else if c.Crashed? || script == [] {
        assert r.state.events[|s.events|..] == [];
      } else {
        var back := Reconnect(s1, script[0]);
        RecoveryLogAfterReconnect(s1, script[0]);
        if back.0 {
          RunLoopEvents(back.1, fuel - 1, script[1..], relay, imageNumber, outcomes + [c]);
          var tail := r.state.events[|back.1.events|..];
          assert r.state.events[|s.events|..] == FullRecovery + tail;
          assert (FullRecovery + tail)[..4] == FullRecovery && (FullRecovery + tail)[4..] == tail;
        }
      }
    }
  }

  /** The balance between caught exceptions and recoveries over a run that
      began with the socket-action log `before` and the outcomes `outcomes`:
      each caught exception closes ST once, except a last one met after the
      script ran out; each close of ST is followed by its reopening, except
      a last one that blocks. Written without subtraction. */
  predicate RecoveriesBalance(before: seq<Event>, outcomes: seq<Outcome>, r: RunResult)
  {
    && Faults(r.outcomes) + Occurrences(before, CloseSt)
       == Faults(outcomes) + Occurrences(r.state.events, CloseSt) + (if r.stop == OutOfScript then 1 else 0)
    && Occurrences(r.state.events, ConnectSt) + Occurrences(before, CloseSt) + (if r.stop == Blocked then 1 else 0)
       == Occurrences(r.state.events, CloseSt) + Occurrences(before, ConnectSt)
  }

  /** A caught exception followed by a recovery keeps the balance when the
      rest of the run keeps it. */
  lemma RecoveriesAfterFault(s1: BridgeState, c: Outcome, rc: Reconnection, outcomes: seq<Outcome>, r: RunResult)
    requires c.Faulted?
    requires Reconnect(s1, rc).0 ==> RecoveriesBalance(Reconnect(s1, rc).1.events, outcomes + [c], r)
    requires !Reconnect(s1, rc).0 ==> r == RunResult(r.imageNumber, Blocked, Reconnect(s1, rc).1, outcomes + [c])
    ensures RecoveriesBalance(s1.events, outcomes, r)
  {
    FaultsAppend(outcomes, c);
    RecoveryCounts(s1, rc);
  }

  /** Every caught exception is followed by a recovery, except a last one
      that comes after the script has run out; every recovery reopens the ST
      socket, except a last one that blocks. */
  lemma {:induction false} RunLoopRecoveries(s: BridgeState, fuel: nat, script: seq<Reconnection>, relay: Pass,
                                             imageNumber: nat, outcomes: seq<Outcome>)
    requires forall t :: relay(t).1.events == t.events
    ensures RecoveriesBalance(s.events, outcomes, RunLoop(s, fuel, script, relay, imageNumber, outcomes))
    decreases fuel
  {
    if fuel > 0 {
      var r := RunLoop(s, fuel, script, relay, imageNumber, outcomes);
      var c, s1 := relay(s).0, relay(s).1;
      if c.Completed? {
        FaultsAppend(outcomes, c);
        RunLoopRecoveries(s1, fuel - 1, script, relay, imageNumber + 1, outcomes + [c]);
      } else if c.Faulted? && script != [] {
        if Reconnect(s1, script[0]).0 {
          RunLoopRecoveries(Reconnect(s1, script[0]).1, fuel - 1, script[1..], relay, imageNumber, outcomes + [c]);
        }
        RecoveriesAfterFault(s1, c, script[0], outcomes, r);
      } else {
        FaultsAppend(outcomes, c);
      }
    }
  }

  /** A run that stops early stops on the pass that caused it: a caught
      exception when the script ran out or a peer never came back, the
      uncaught exception itself on a crash. A run that does not stop early
      makes every pass it is allowed. */
  lemma {:induction false} RunLoopStops(s: BridgeState, fuel: nat, script: seq<Reconnection>, relay: Pass,
                                        imageNumber: nat, outcomes: seq<Outcome>)
    ensures var r := RunLoop(s, fuel, script, relay, imageNumber, outcomes);
            && (r.stop == OutOfCycles ==> |r.outcomes| == |outcomes| + fuel)
            && (r.stop == OutOfScript || r.stop == Blocked ==>
                  |outcomes| < |r.outcomes| && r.outcomes[|r.outcomes| - 1].Faulted?)
            && (r.stop.Crash? ==>
                  |outcomes| < |r.outcomes| && r.outcomes[|r.outcomes| - 1] == Crashed(r.stop.error))
    decreases fuel
  {
    if fuel > 0 {
      var c, s1 := relay(s).0, relay(s).1;
      if c.Completed? {
        RunLoopStops(s1, fuel - 1, script, relay, imageNumber + 1, outcomes + [c]);
      } else if c.Faulted? && script != [] && Reconnect(s1, script[0]).0 {
        RunLoopStops(Reconnect(s1, script[0]).1, fuel - 1, script[1..], relay, imageNumber, outcomes + [c]);
      }
    }
  }

  /** The bridge's loop: image_number counts the completed cycles, the
      cache is never written by the loop, its socket actions are a series of
      recoveries, one begun for every caught exception but a last one met
      after the script ran out, and it crashes only on an exception outside
      the except clause, on the pass that raised it. */
  lemma BridgeRun(s: BridgeState, fuel: nat, script: seq<Reconnection>, codec: Codec, relay: Pass)
    requires RelaysWith(relay, codec)
    ensures var r := RunLoop(s, fuel, script, relay, 0, []);
            && |r.outcomes| <= fuel
            && r.imageNumber == Completions(r.outcomes)
            && r.state.position == s.position && r.state.attitude == s.attitude
            && (r.stop.Crash? ==> !Caught(r.stop.error))
            && |s.events| <= |r.state.events| && r.state.events[..|s.events|] == s.events
            && RecoveryLog(r.state.events[|s.events|..])
    ensures var r := RunLoop(s, fuel, script, relay, 0, []);
            var closes := Occurrences(r.state.events, CloseSt) - Occurrences(s.events, CloseSt);
            var reopens := Occurrences(r.state.events, ConnectSt) - Occurrences(s.events, ConnectSt);
            && Faults(r.outcomes) == closes + (if r.stop == OutOfScript then 1 else 0)
            && reopens + (if r.stop == Blocked then 1 else 0) == closes
            && (r.stop == OutOfCycles ==> |r.outcomes| == fuel)
            && (r.stop == OutOfScript || r.stop == Blocked ==> r.outcomes != [] && r.outcomes[|r.outcomes| - 1].Faulted?)
            && (r.stop.Crash? ==> r.outcomes != [] && r.outcomes[|r.outcomes| - 1] == Crashed(r.stop.error))
  {
    forall t
      ensures relay(t).1.position == t.position && relay(t).1.attitude == t.attitude
      ensures relay(t).1.events == t.events
      ensures relay(t).0.Crashed? ==> !Caught(relay(t).0.error)
    {
      assert relay(t) == Relay(t, codec);
    }
    RunLoopCounts(s, fuel, script, relay, 0, []);
    RunLoopKeepsCache(s, fuel, script, relay, 0, []);
    RunLoopEvents(s, fuel, script, relay, 0, []);
    RunLoopRecoveries(s, fuel, script, relay, 0, []);
    RunLoopStops(s, fuel, script, relay, 0, []);
  }

  // -------------------------------------------------------------- the class

  class Bridge {
    var st: Socket
    var jet: Socket
    var gncPosition: Vector
    var gncAttitude: Vector
    /** The socket actions so far: a trace for the proofs, not a field of
        the program's object. */
    ghost var events: seq<Event>

    ghost function State(): BridgeState
      reads this
    {
      BridgeState(st, jet, gncPosition, gncAttitude, events)
    }

    /** Bridge(connect_to_ST, quiet_mode): the cache starts at its defaults;
        ST is connected first (when asked; otherwise st_socket is never
        assigned), then Jet. Each connection stands for the first successful
        attempt of the retry loop. */
    constructor (connectToSt: bool, stPeer: Peer, jetPeer: Peer)
      ensures gncPosition == DefaultPosition && gncAttitude == DefaultAttitude
      ensures st == (if connectToSt then Connected(stPeer) else Unset)
      ensures jet == Connected(jetPeer)
      ensures events == (if connectToSt then [ConnectSt] else []) + [ConnectJet]
    {
      gncPosition := DefaultPosition;
      gncAttitude := DefaultAttitude;
      st := if connectToSt then Connected(stPeer) else Unset;
      jet := Connected(jetPeer);
      events := (if connectToSt then [ConnectSt] else []) + [ConnectJet];
    }

    /** update_GNC_position: overwrites the cached position, nothing else. */
    method UpdateGncPosition(data: Vector)
      modifies this`gncPosition
      ensures gncPosition == data
    {
      gncPosition := data;
    }

    /** update_GNC_attitude: overwrites the cached attitude, nothing else. */
    method UpdateGncAttitude(data: Vector)
      modifies this`gncAttitude
      ensures gncAttitude == data
    {
      gncAttitude := data;
    }

    /** receive_in_chunks, up to pickle.loads. */
    method ReceiveInChunks() returns (r: Result<seq<byte>>)
      modifies this`st
      ensures (r, st) == ReceiveOn(old(st))
    {
      if st.Unset? {
        return Err(NoSocket);
      } else if st.Closed? {
        return Err(SocketError);
      }
      var (header, afterHeader) := Recv(st.peer.inbound, HeaderSize);
      st := Connected(st.peer.(inbound := afterHeader));
      if |header| < HeaderSize {
        return Err(ShortHeader);
      }
      r := ReceiveBody(UnpackU32(header));
    }

    /** The body loop of receive_in_chunks: recv until `totalSize` bytes
        have arrived, RuntimeError when the peer closes first. */
    method ReceiveBody(totalSize: nat) returns (r: Result<seq<byte>>)
      requires st.Connected?
      modifies this`st
      ensures var (got, rest) := ReadExactly(old(st).peer.inbound, totalSize, [], ClosedPrematurely);
              r == got && st == Connected(old(st).peer.(inbound := rest))
    {
      var data: seq<byte> := [];
      while |data| < totalSize
        invariant st.Connected? && st.peer.outbound == old(st).peer.outbound
        invariant |data| <= totalSize
        invariant ReadExactly(st.peer.inbound, totalSize, data, ClosedPrematurely)
                  == ReadExactly(old(st).peer.inbound, totalSize, [], ClosedPrematurely)
        decreases totalSize - |data|
      {
        var (chunk, rest) := Recv(st.peer.inbound, Min(RecvChunkSize, totalSize - |data|));
        st := Connected(st.peer.(inbound := rest));
        if chunk == [] {
          return Err(ClosedPrematurely);
        }
        data := data + chunk;
      }
      assert ReadExactly(st.peer.inbound, totalSize, data, ClosedPrematurely) == (Ok(data), st.peer.inbound);
      r := Ok(data);
    }

    /** send_in_chunks(serialized_data, chunk_size). */
    method SendInChunks(serializedData: seq<byte>, chunkSize: Cap) returns (r: Result<()>)
      modifies this`jet
      ensures (r, jet) == Send(old(jet), serializedData, chunkSize)
    {
      if jet.Unset? {
        return Err(NoSocket);
      }
      var dataSize := |serializedData|;
      var header := PackU32(dataSize);
      if header.None? {
        return Err(HeaderOverflow);
      }
      ghost var writes := FrameWrites(serializedData, chunkSize);
      assert writes == [header.value] + Chunks(serializedData, chunkSize);
      SendWritesCons(jet, writes);
      var sent := SockSendAll(jet, header.value);
      if sent.Err? {
        return Err(sent.error);
      }
      jet := sent.value;
      var totalSent := 0;
      while totalSent < dataSize
        invariant totalSent <= dataSize
        invariant SendWrites(jet, ChunksFrom(serializedData, totalSent, chunkSize))
                  == Send(old(jet), serializedData, chunkSize)
        decreases dataSize - totalSent
      {
        var chunk := serializedData[totalSent..Min(totalSent + chunkSize, dataSize)];
        SendWritesCons(jet, ChunksFrom(serializedData, totalSent, chunkSize));
        sent := SockSendAll(jet, chunk);
        if sent.Err? {
          return Err(sent.error);
        }
        jet := sent.value;
        totalSent := totalSent + |chunk|;
      }
      r := Ok(());
    }

    /** One pass of the loop body of full_bridge_mode. */
    method RelayOnce(codec: Codec) returns (outcome: Outcome)
      modifies this`st, this`jet
      ensures (outcome, State()) == Relay(old(State()), codec)
    {
      var received := ReceiveInChunks();
      if received.Err? {
        return Raise(received.error);
      }
      if received.value == [] {
        return Crashed(CodecError);
      }
      var image := codec.loadImage(received.value);
      if image.None? {
        return Crashed(CodecError);
      }
      var record := Record(image.value, gncPosition, gncAttitude);
      var sent := SendInChunks(codec.dumpRecord(record), SendChunkSize);
      if sent.Err? {
        return Raise(sent.error);
      }
      var (response, jetIn) := Recv(jet.peer.inbound, ResponseLimit);
      jet := Connected(jet.peer.(inbound := jetIn));
      if response == [] {
        return Crashed(CodecError);
      }
      var reply := codec.loadResponse(response);
      if reply.None? {
        return Crashed(CodecError);
      }
      if !PrintableReply(reply.value) {
        return Crashed(ReplyFormat);
      }
      outcome := Completed(record, reply.value);
    }

    /** close_st_socket: the socket is closed even when close raises
        (`fails`); an unset attribute raises and stays unset. */
    method CloseStSocket(fails: bool) returns (raised: bool)
      modifies this`st, this`events
      ensures st == AfterClose(old(st)) && events == old(events) + [CloseSt]
      ensures raised == (fails || old(st).Unset?)
    {
      raised := fails || st.Unset?;
      st := if st.Unset? then Unset else Closed;
      events := events + [CloseSt];
    }

    /** close_jet_socket: the socket is closed even when close raises
        (`fails`); an unset attribute raises and stays unset. */
    method CloseJetSocket(fails: bool) returns (raised: bool)
      modifies this`jet, this`events
      ensures jet == AfterClose(old(jet)) && events == old(events) + [CloseJet]
      ensures raised == (fails || old(jet).Unset?)
    {
      raised := fails || jet.Unset?;
      jet := if jet.Unset? then Unset else Closed;
      events := events + [CloseJet];
    }

    /** connect_socket_to_st: a new socket, then the retry loop. */
    method ConnectSocketToSt(attempts: seq<bool>, peer: Peer) returns (connected: bool)
      modifies this`st, this`events
      ensures connected == FirstSuccess(attempts).Some?
      ensures st == (if connected then Connected(peer) else Closed)
      ensures events == old(events) + (if connected then [ConnectSt] else [])
    {
      st := Closed;
      var success := RetryConnect(attempts);
      connected := success.Some?;
      if connected {
        st := Connected(peer);
        events := events + [ConnectSt];
      }
    }

    /** connect_socket_to_jet: a new socket, then the retry loop. */
    method ConnectSocketToJet(attempts: seq<bool>, peer: Peer) returns (connected: bool)
      modifies this`jet, this`events
      ensures connected == FirstSuccess(attempts).Some?
      ensures jet == (if connected then Connected(peer) else Closed)
      ensures events == old(events) + (if connected then [ConnectJet] else [])
    {
      jet := Closed;
      var success := RetryConnect(attempts);
      connected := success.Some?;
      if connected {
        jet := Connected(peer);
        events := events + [ConnectJet];
      }
    }

    /** The except branch of full_bridge_mode. */
    method RecoverFromFault(rc: Reconnection) returns (reconnected: bool)
      modifies this`st, this`jet, this`events
      ensures (reconnected, State()) == Reconnect(old(State()), rc)
    {
      ghost var s0 := State();
      var raised := CloseStSocket(rc.stCloseFails);   // try: ... except: pass
      raised := CloseJetSocket(rc.jetCloseFails);     // try: ... except: pass
      assert State() == s0.(st := AfterClose(s0.st), jet := AfterClose(s0.jet), events := s0.events + [CloseSt, CloseJet]);
      reconnected := ConnectSocketToJet(rc.jetAttempts, rc.jetPeer);
      if reconnected {
        assert events == s0.events + [CloseSt, CloseJet, ConnectJet];
        reconnected := ConnectSocketToSt(rc.stAttempts, rc.stPeer);
        assert reconnected ==> events == s0.events + FullRecovery;
      }
      assert State() == Reconnect(s0, rc).1;
    }

    /** One pass of the loop of full_bridge_mode: the relay, then either the
        increment of image_number or, after a caught exception, the recovery
        with the next entry `k` of the script. `stop` says why the loop ends
        here, if it does. */
    method LoopPass(codec: Codec, ghost relay: Pass, script: seq<Reconnection>, k: nat, fuel: nat,
                    imageNumber: nat, ghost outcomes: seq<Outcome>)
      returns (n: nat, next: nat, stop: Option<Stop>, ghost os: seq<Outcome>)
      requires RelaysWith(relay, codec)
      requires k <= |script| && fuel > 0
      modifies this`st, this`jet, this`events
      ensures k <= next <= |script|
      ensures var goal := RunLoop(old(State()), fuel, script[k..], relay, imageNumber, outcomes);
              if stop.Some? then goal == RunResult(n, stop.value, State(), os)
              else goal == RunLoop(State(), fuel - 1, script[next..], relay, n, os)
    {
      ghost var pre := State();
      var outcome := RelayOnce(codec);
      assert (outcome, State()) == Relay(pre, codec) == relay(pre);
      os := outcomes + [outcome];
      n, next, stop := imageNumber, k, None;
      match outcome {
        case Completed(_, _) =>
          n := imageNumber + 1;
        case Crashed(e) =>
          stop := Some(Crash(e));
        case Faulted(_) =>
          if k == |script| {
            assert script[k..] == [];
            stop := Some(OutOfScript);
          } else {
            ghost var mid := State();
            var reconnected := RecoverFromFault(script[k]);
            assert (reconnected, State()) == Reconnect(mid, script[k..][0]);
            assert script[k..][1..] == script[k + 1..];
            next := k + 1;
            if !reconnected {
              stop := Some(Blocked);
            }
          }
      }
    }

    /** full_bridge_mode, for at most `cycles` passes of its loop. */
    method FullBridgeMode(cycles: nat, script: seq<Reconnection>, codec: Codec, ghost relay: Pass)
      returns (imageNumber: nat, stop: Stop)
      requires RelaysWith(relay, codec)
      modifies this`st, this`jet, this`events
      ensures var r := RunLoop(old(State()), cycles, script, relay, 0, []);
              imageNumber == r.imageNumber && stop == r.stop && State() == r.state
    {
      imageNumber := 0;
      ghost var outcomes: seq<Outcome> := [];
      ghost var start := State();
      var left: nat, k: nat := cycles, 0;
      while left > 0
        invariant k <= |script|
        invariant RunLoop(State(), left, script[k..], relay, imageNumber, outcomes)
                  == RunLoop(start, cycles, script, relay, 0, [])
      {
        var ended;
        imageNumber, k, ended, outcomes := LoopPass(codec, relay, script, k, left, imageNumber, outcomes);
        if ended.Some? {
          return imageNumber, ended.value;
        }
        left := left - 1;
      }
      stop := OutOfCycles;
    }
  }

  /** A fresh bridge whose position callback has fired once and whose
      attitude callback has not sends the new position with the default
      attitude. */
  method PositionUpdateReachesRecord(stPeer: Peer, jetPeer: Peer, position: Vector, codec: Codec)
    returns (outcome: Outcome)
    ensures outcome.Completed? ==> outcome.record.ekfPosition == position
                                   && outcome.record.ekfAttitude == DefaultAttitude
  {
    var bridge := new Bridge(true, stPeer, jetPeer);
    bridge.UpdateGncPosition(position);
    outcome := bridge.RelayOnce(codec);
  }
}
